/** The log write buffer: callers enqueue records in a ring channel, one flusher collects them into batches and
    writes each batch with an atomic CreateBatch, then publishes the IDs and signals the callers.

    `arrived`, `received`, `written` and `kept` are bookkeeping: what was enqueued, taken from the ring, written
    or failed, and written successfully, each in order.  `db` and `direct` are the table's rows apart: those of
    batches, and those a Create inserted by itself while the buffer was stopping; `given` says for which record. */
module LogBuffer {
  import opened Basics

  datatype Row = Row(id: int, payload: string)

  datatype Mode = Looping | Draining | Finishing | Exited

  // payload and tmp never change; id is the record's ID field.
  datatype Record = Record(payload: string, tmp: int, id: int, enqueued: bool, signals: nat, failed: bool)

  datatype Sys = Sys(batchSize: nat, ringCap: nat, tmpSeq: nat, recs: map<nat, Record>, ring: seq<nat>, batch: seq<nat>,
                     mode: Mode, stopping: bool, flushing: bool, outcome: Option<Option<seq<int>>>,
                     idMap: map<int, int>, used: set<int>,
                     table: seq<Row>, db: seq<Row>, direct: seq<Row>, given: seq<nat>,
                     arrived: seq<nat>, received: seq<nat>, written: seq<nat>, kept: seq<nat>)

  datatype Event =
    | Assign(r: nat, payload: string)      // Create: the temporary ID
    | Enqueue(r: nat)                      // Create: the record enters the ring
    | Abandon(r: nat)                      // Create: cancelled
    | Directly(r: nat, id: Option<int>)    // Create: stopping, so the record is inserted on its own
    | Receive
    | Tick
    | StopRequest
    | SeeStop
    | RingEmpty
    | Exit
    | Insert(result: Option<seq<int>>)     // CreateBatch: the new IDs, or an error and nothing written
    | Publish
    | Use(tmp: int)                        // UpdateResult resolves tmp and removes it from the map

  // A flush starts when len(batch) >= batchSize after an append, so a batch size of 0 acts like 1.
  function Limit(s: Sys): nat {
    if s.batchSize == 0 then 1 else s.batchSize
  }

  predicate FreshIds(db: seq<Row>, ids: seq<int>) {
    && (forall i :: 0 <= i < |ids| ==> ids[i] > 0 && forall k :: 0 <= k < |db| ==> db[k].id != ids[i])
    && (forall i, k :: 0 <= i < k < |ids| ==> ids[i] != ids[k])
  }

  predicate Enabled(s: Sys, e: Event) {
    match e
    case Assign(r, _) => r !in s.recs
    case Enqueue(r) => r in s.recs && !s.recs[r].enqueued && s.recs[r].id < 0 && |s.ring| < s.ringCap
    case Abandon(r) => r in s.recs && !s.recs[r].enqueued && s.recs[r].id < 0
    case Directly(r, id) =>
      && s.stopping && r in s.recs && !s.recs[r].enqueued && s.recs[r].id < 0
      && (id.Some? ==> FreshIds(s.db + s.direct, [id.value]))
    case Receive => (s.mode == Looping || s.mode == Draining) && !s.flushing && s.ring != []
    case Tick => s.mode == Looping && !s.flushing && s.batch != []
    case StopRequest => true
    case SeeStop => s.mode == Looping && !s.flushing && s.stopping
    case RingEmpty => s.mode == Draining && !s.flushing && s.ring == []
    case Exit => s.mode == Finishing && !s.flushing
    case Insert(result) =>
      && s.flushing && s.outcome == None
      && (result.Some? ==> |result.value| == |s.batch| && FreshIds(s.db + s.direct, result.value))
    case Publish => s.flushing && s.outcome.Some? && (s.outcome.value.Some? ==> |s.outcome.value.value| == |s.batch|)
    case Use(tmp) => tmp in s.idMap
  }

  function Rows(s: Sys, ids: seq<int>): (rows: seq<Row>)
    requires |ids| == |s.batch|
    ensures |rows| == |ids|
  {
    seq(|ids|, i requires 0 <= i < |ids| =>
      Row(ids[i], if s.batch[i] in s.recs then s.recs[s.batch[i]].payload else ""))
  }

  // writeBatch's last loop, on the records: the row's ID, or 0 as after a failure, and one signal.
  function Answer(rec: Record, ids: Option<seq<int>>, i: nat): Record
    requires ids.Some? ==> i < |ids.value|
  {
    match ids
    case None => rec.(id := 0, signals := rec.signals + 1, failed := true)
    case Some(v) => rec.(id := v[i], signals := rec.signals + 1)
  }

  function Answered(recs: map<nat, Record>, batch: seq<nat>, ids: Option<seq<int>>): map<nat, Record>
    requires ids.Some? ==> |batch| <= |ids.value|
    decreases |batch|
  {
    if batch == [] then recs
    else
      var n := |batch| - 1;
      var before := Answered(recs, batch[..n], ids);
      if batch[n] in before then before[batch[n] := Answer(before[batch[n]], ids, n)] else before
  }

  // And on the map from temporary to real IDs.
  function Resolved(idMap: map<int, int>, tmps: seq<int>, ids: seq<int>): map<int, int>
    requires |tmps| <= |ids|
    decreases |tmps|
  {
    if tmps == [] then idMap
    else
      var n := |tmps| - 1;
      var before := Resolved(idMap, tmps[..n], ids);
      if tmps[n] < 0 && ids[n] > 0 then before[tmps[n] := ids[n]] else before
  }

  function Tmps(recs: map<nat, Record>, batch: seq<nat>): (tmps: seq<int>)
    ensures |tmps| == |batch|
  {
    seq(|batch|, i requires 0 <= i < |batch| => if batch[i] in recs then recs[batch[i]].tmp else 0)
  }

  function Next(s: Sys, e: Event): Sys
    requires Enabled(s, e)
  {
    match e
    case Assign(r, payload) =>
      var tmp := -(s.tmpSeq + 1);
      s.(tmpSeq := s.tmpSeq + 1, recs := s.recs[r := Record(payload, tmp, tmp, false, 0, false)])
    case Enqueue(r) =>
      s.(ring := s.ring + [r], arrived := s.arrived + [r], recs := s.recs[r := s.recs[r].(enqueued := true)])
    case Abandon(r) => s.(recs := s.recs[r := s.recs[r].(id := 0)])
    case Directly(r, None) => s.(recs := s.recs[r := s.recs[r].(id := 0)])
    case Directly(r, Some(id)) =>
      var row := Row(id, s.recs[r].payload);
      s.(recs := s.recs[r := s.recs[r].(id := id)], table := s.table + [row], direct := s.direct + [row],
         given := s.given + [r])
    case Receive =>
      var batch := s.batch + [s.ring[0]];
      s.(ring := s.ring[1..], batch := batch, received := s.received + [s.ring[0]], flushing := |batch| >= s.batchSize)
    case Tick => s.(flushing := true)
    case StopRequest => s.(stopping := true)
    case SeeStop => s.(mode := Draining)
    case RingEmpty => s.(mode := Finishing, flushing := s.batch != [])
    case Exit => s.(mode := Exited)
    case Insert(None) => s.(outcome := Some(None))
    case Insert(Some(ids)) =>
      s.(outcome := Some(Some(ids)), table := s.table + Rows(s, ids), db := s.db + Rows(s, ids))
    case Publish =>
      var result := s.outcome.value;
      s.(recs := Answered(s.recs, s.batch, result),
         idMap := if result.Some? then Resolved(s.idMap, Tmps(s.recs, s.batch), result.value) else s.idMap,
         batch := [], flushing := false, outcome := None, written := s.written + s.batch,
         kept := if result.Some? then s.kept + s.batch else s.kept)
    case Use(tmp) => s.(idMap := s.idMap - {tmp}, used := s.used + {tmp})
  }

  ghost predicate ValidRun(s: Sys, es: seq<Event>)
    decreases |es|
  {
    es == [] || (Enabled(s, es[0]) && ValidRun(Next(s, es[0]), es[1..]))
  }

  ghost function Run(s: Sys, es: seq<Event>): Sys
    requires ValidRun(s, es)
    decreases |es|
  {
    if es == [] then s else Run(Next(s, es[0]), es[1..])
  }

  function Initial(batchSize: nat, ringCap: nat): Sys {
    Sys(batchSize, ringCap, 0, map[], [], [], Looping, false, false, None, map[], {}, [], [], [], [], [], [], [], [])
  }

  // ---------- Order and batching ----------

  /** Nothing is reordered, dropped or doubled between the ring and the database: what arrived is what was
      received plus the ring, what was received is what was written plus the current batch. */
  ghost predicate Lined(s: Sys) {
    && s.arrived == s.received + s.ring && s.received == s.written + s.batch
    && |s.batch| <= Limit(s) && (!s.flushing ==> |s.batch| < Limit(s))
    && (s.flushing ==> s.batch != []) && (s.outcome.Some? ==> s.flushing)
    && (s.mode == Exited || (s.mode == Finishing && !s.flushing) ==> s.batch == [])
  }

  lemma NextLined(s: Sys, e: Event)
    requires Lined(s) && Enabled(s, e)
    ensures Lined(Next(s, e))
  {
    match e
    case Enqueue(r) => assert s.arrived + [r] == s.received + (s.ring + [r]);
    case Receive =>
      assert s.arrived == s.received + [s.ring[0]] + s.ring[1..];
      assert s.received + [s.ring[0]] == s.written + (s.batch + [s.ring[0]]);
    case Publish =>
      assert s.received == s.written + s.batch + [];
    case _ =>
  }

  // ---------- Signals, IDs and rows ----------

  /** Records arrive once, with distinct negative temporary IDs. */
  ghost predicate Distinct(s: Sys) {
    && (forall i, k :: 0 <= i < k < |s.arrived| ==> s.arrived[i] != s.arrived[k])
    && (forall r :: r in s.arrived <==> r in s.recs && s.recs[r].enqueued)
    && (forall r :: r in s.recs ==> 0 - s.tmpSeq <= s.recs[r].tmp < 0)
    && (forall r, q :: r in s.recs && q in s.recs && s.recs[r].tmp == s.recs[q].tmp ==> r == q)
  }

  lemma {:induction false} AnsweredMiss(recs: map<nat, Record>, batch: seq<nat>, ids: Option<seq<int>>, r: nat)
    requires (ids.Some? ==> |batch| <= |ids.value|) && (r !in batch || r !in recs)
    ensures var t := Answered(recs, batch, ids); (r in t <==> r in recs) && (r in recs ==> t[r] == recs[r])
    decreases |batch|
  {
    if batch != [] {
      AnsweredMiss(recs, batch[..|batch| - 1], ids, r);
    }
  }

  lemma {:induction false} AnsweredHit(recs: map<nat, Record>, batch: seq<nat>, ids: Option<seq<int>>, i: nat)
    requires (ids.Some? ==> |batch| <= |ids.value|) && i < |batch| && batch[i] in recs
    requires forall j, k :: 0 <= j < k < |batch| ==> batch[j] != batch[k]
    ensures var t := Answered(recs, batch, ids); batch[i] in t && t[batch[i]] == Answer(recs[batch[i]], ids, i)
    decreases |batch|
  {
    var n := |batch| - 1;
    if i < n {
      AnsweredHit(recs, batch[..n], ids, i);
    } else {
      AnsweredMiss(recs, batch[..n], ids, batch[n]);
    }
  }

  lemma {:induction false} ResolvedAt(idMap: map<int, int>, tmps: seq<int>, ids: seq<int>)
    requires |tmps| <= |ids|
    requires forall i :: 0 <= i < |tmps| ==> tmps[i] < 0 && ids[i] > 0
    requires forall i, k :: 0 <= i < k < |tmps| ==> tmps[i] != tmps[k]
    ensures var t := Resolved(idMap, tmps, ids);
            && (forall i :: 0 <= i < |tmps| ==> tmps[i] in t && t[tmps[i]] == ids[i])
            && (forall k :: k !in tmps ==> (k in t <==> k in idMap) && (k in idMap ==> t[k] == idMap[k]))
    decreases |tmps|
  {
    if tmps != [] {
      var n := |tmps| - 1;
      ResolvedAt(idMap, tmps[..n], ids);
      assert tmps[n] !in tmps[..n];
    }
  }

  // The records whose rows exist, in row order.
  function Stored(s: Sys): seq<nat> {
    s.kept + if s.outcome.Some? && s.outcome.value.Some? then s.batch else []
  }

  ghost predicate RowOf(s: Sys, i: nat)
    requires i < |s.db| == |Stored(s)|
  {
    var r := Stored(s)[i];
    r in s.recs && s.db[i].payload == s.recs[r].payload && s.db[i].id > 0
  }

  // A record that was written: it has its row's ID, and its temporary ID leads there until it has been used.
  ghost predicate Delivered(s: Sys, i: nat)
    requires i < |s.kept| <= |s.db|
  {
    var r := s.kept[i];
    && r in s.recs && s.recs[r].id == s.db[i].id && !s.recs[r].failed
    && (s.recs[r].tmp in s.idMap ==> s.idMap[s.recs[r].tmp] == s.db[i].id)
    && (s.recs[r].tmp in s.idMap || s.recs[r].tmp in s.used)
  }

  // Signalled once if its batch has been dealt with, else not at all.
  ghost predicate Answers(s: Sys, r: nat)
    requires r in s.recs
  {
    s.recs[r].signals == (if r in s.written then 1 else 0) && (s.recs[r].failed ==> r in s.written)
  }

  function Succeeded(recs: map<nat, Record>, line: seq<nat>): seq<nat>
    decreases |line|
  {
    if line == [] then []
    else
      var n := |line| - 1;
      Succeeded(recs, line[..n]) + if line[n] in recs && recs[line[n]].failed then [] else [line[n]]
  }

  ghost predicate Settled(s: Sys) {
    && |s.db| == |Stored(s)|
    && (forall i :: 0 <= i < |s.db| ==> RowOf(s, i))
    && (forall i, k :: 0 <= i < k < |s.db| ==> s.db[i].id != s.db[k].id)
    && (forall i :: 0 <= i < |s.kept| ==> Delivered(s, i))
    && (s.outcome.Some? && s.outcome.value.Some? ==>
          && |s.outcome.value.value| == |s.batch|
          && forall j :: 0 <= j < |s.batch| ==> s.outcome.value.value[j] == s.db[|s.kept| + j].id)
    && (forall r :: r in s.recs ==> Answers(s, r))
    && s.kept == Succeeded(s.recs, s.written)
  }

  // A record inserted on its own: never in the ring, and it has its row's ID.
  ghost predicate Given(s: Sys, k: nat)
    requires k < |s.given| == |s.direct|
  {
    var r := s.given[k];
    && r in s.recs && !s.recs[r].enqueued
    && s.direct[k] == Row(s.recs[r].id, s.recs[r].payload) && s.direct[k].id > 0
  }

  /** The table is the batches' rows and the direct ones, no two under one ID. */
  ghost predicate Tabled(s: Sys) {
    && multiset(s.table) == multiset(s.db + s.direct)
    && |s.given| == |s.direct| && (forall k :: 0 <= k < |s.given| ==> Given(s, k))
    && (forall i, k :: 0 <= i < k < |s.direct| ==> s.direct[i].id != s.direct[k].id)
    && (forall i, k :: 0 <= i < |s.db| && 0 <= k < |s.direct| ==> s.db[i].id != s.direct[k].id)
  }

  ghost predicate Good(s: Sys) {
    Lined(s) && Distinct(s) && Settled(s) && Tabled(s)
  }

  lemma FreshApart(db: seq<Row>, direct: seq<Row>, ids: seq<int>)
    requires FreshIds(db + direct, ids)
    ensures FreshIds(db, ids) && FreshIds(direct, ids)
  {
    assert forall k :: 0 <= k < |db| ==> (db + direct)[k] == db[k];
    assert forall k :: 0 <= k < |direct| ==> (db + direct)[|db| + k] == direct[k];
  }

  lemma SameBagAppended(table: seq<Row>, db: seq<Row>, direct: seq<Row>, rows: seq<Row>)
    requires multiset(table) == multiset(db + direct)
    ensures multiset(table + rows) == multiset(db + rows + direct)
  {
  }

  lemma NewRowsApart(db: seq<Row>, direct: seq<Row>, rows: seq<Row>, ids: seq<int>)
    requires |rows| == |ids| && FreshIds(direct, ids) && forall i :: 0 <= i < |rows| ==> rows[i].id == ids[i]
    requires forall i, k :: 0 <= i < |db| && 0 <= k < |direct| ==> db[i].id != direct[k].id
    ensures forall i, k :: 0 <= i < |db + rows| && 0 <= k < |direct| ==> (db + rows)[i].id != direct[k].id
  {
  }

  lemma InsertKeepsTabled(s: Sys, ids: seq<int>)
    requires Good(s) && Enabled(s, Insert(Some(ids)))
    ensures Tabled(Next(s, Insert(Some(ids))))
  {
    var t, rows := Next(s, Insert(Some(ids))), Rows(s, ids);
    forall k | 0 <= k < |t.given| ensures Given(t, k) {
      assert Given(s, k);
    }
    FreshApart(s.db, s.direct, ids);
    SameBagAppended(s.table, s.db, s.direct, rows);
    NewRowsApart(s.db, s.direct, rows, ids);
  }

  lemma DirectKeepsTabled(s: Sys, r: nat, id: int)
    requires Good(s) && Enabled(s, Directly(r, Some(id)))
    ensures Tabled(Next(s, Directly(r, Some(id))))
  {
    var t := Next(s, Directly(r, Some(id)));
    FreshApart(s.db, s.direct, [id]);
    assert [id][0] == id && id > 0;
    forall k | 0 <= k < |t.given| ensures Given(t, k) {
      assert k < |s.given| ==> Given(s, k);
    }
    assert t.db + t.direct == s.db + s.direct + [t.direct[|s.direct|]];
  }

  // The other events leave the direct records alone.
  lemma RestKeepsTabled(s: Sys, e: Event)
    requires Good(s) && Enabled(s, e) && !(e.Insert? && e.result.Some?) && !(e.Directly? && e.id.Some?)
    ensures Tabled(Next(s, e))
  {
    var t := Next(s, e);
    assert t.table == s.table && t.db == s.db && t.direct == s.direct && t.given == s.given;
    forall k | 0 <= k < |t.given| ensures Given(t, k) {
      assert Given(s, k);
      if e.Publish? {
        Placed(s);
        AnsweredMiss(s.recs, s.batch, s.outcome.value, s.given[k]);
      }
    }
  }

  lemma NextTabled(s: Sys, e: Event)
    requires Good(s) && Enabled(s, e)
    ensures Tabled(Next(s, e))
  {
    match e
    case Insert(Some(ids)) => InsertKeepsTabled(s, ids);
    case Directly(r, Some(id)) => DirectKeepsTabled(s, r, id);
    case _ => RestKeepsTabled(s, e);
  }

  lemma NextDistinct(s: Sys, e: Event)
    requires Good(s) && Enabled(s, e)
    ensures Distinct(Next(s, e))
  {
    match e
    case Publish => PublishKeepsDistinct(s);
    case Assign(r, payload) => AssignKeepsDistinct(s, r, payload);
    case Enqueue(r) => EnqueueKeepsDistinct(s, r);
    case _ => RestKeepsDistinct(s, e);
  }

  lemma AssignKeepsDistinct(s: Sys, r: nat, payload: string)
    requires Distinct(s) && Enabled(s, Assign(r, payload))
    ensures Distinct(Next(s, Assign(r, payload)))
  {
  }

  lemma EnqueueKeepsDistinct(s: Sys, r: nat)
    requires Distinct(s) && Enabled(s, Enqueue(r))
    ensures Distinct(Next(s, Enqueue(r)))
  {
  }

  lemma RestKeepsDistinct(s: Sys, e: Event)
    requires Distinct(s) && Enabled(s, e) && !e.Publish? && !e.Assign? && !e.Enqueue?
    ensures Distinct(Next(s, e))
  {
    assert Next(s, e).recs.Keys == s.recs.Keys && Next(s, e).arrived == s.arrived && Next(s, e).tmpSeq == s.tmpSeq;
    forall r | r in s.recs
      ensures Next(s, e).recs[r].tmp == s.recs[r].tmp && Next(s, e).recs[r].enqueued == s.recs[r].enqueued
    {
    }
  }

  lemma PublishKeepsDistinct(s: Sys)
    requires Good(s) && Enabled(s, Publish)
    ensures Distinct(Next(s, Publish))
  {
    forall r ensures r in Next(s, Publish).recs <==> r in s.recs
    ensures r in s.recs ==>
      Next(s, Publish).recs[r].tmp == s.recs[r].tmp && Next(s, Publish).recs[r].enqueued == s.recs[r].enqueued
    {
      AnsweredKeeps(s.recs, s.batch, s.outcome.value, r);
    }
  }

  lemma {:induction false} AnsweredKeeps(recs: map<nat, Record>, batch: seq<nat>, ids: Option<seq<int>>, r: nat)
    requires ids.Some? ==> |batch| <= |ids.value|
    ensures var t := Answered(recs, batch, ids);
            && (r in t <==> r in recs)
            && (r in recs ==>
                  t[r].tmp == recs[r].tmp && t[r].payload == recs[r].payload && t[r].enqueued == recs[r].enqueued)
    decreases |batch|
  {
    if batch != [] {
      AnsweredKeeps(recs, batch[..|batch| - 1], ids, r);
    }
  }

  lemma {:induction false} SucceededSame(recs: map<nat, Record>, recs': map<nat, Record>, line: seq<nat>)
    requires forall r :: r in line ==> (r in recs && recs[r].failed <==> r in recs' && recs'[r].failed)
    ensures Succeeded(recs, line) == Succeeded(recs', line)
    decreases |line|
  {
    if line != [] {
      SucceededSame(recs, recs', line[..|line| - 1]);
    }
  }

  lemma {:induction false} SucceededConcat(recs: map<nat, Record>, a: seq<nat>, b: seq<nat>, failed: bool)
    requires forall r :: r in b ==> r in recs && recs[r].failed == failed
    ensures Succeeded(recs, a + b) == Succeeded(recs, a) + if failed then [] else b
    decreases |b|
  {
    if b == [] {
      assert a + b == a;
    } else {
      var n := |b| - 1;
      assert (a + b)[..|a| + n] == a + b[..n] && b == b[..n] + [b[n]];
      SucceededConcat(recs, a, b[..n], failed);
    }
  }

  lemma {:induction false} SucceededIn(recs: map<nat, Record>, line: seq<nat>, r: nat)
    ensures r in Succeeded(recs, line) ==> r in line
    decreases |line|
  {
    if line != [] {
      SucceededIn(recs, line[..|line| - 1], r);
    }
  }

  // Where a record is along the line.
  lemma Placed(s: Sys)
    requires Good(s)
    ensures forall r :: r in s.kept ==> r in s.written
    ensures forall r :: r in s.written || r in s.batch ==> r in s.arrived
    ensures forall r :: r in s.written ==> r !in s.batch
    ensures forall i, k :: 0 <= i < k < |s.batch| ==> s.batch[i] != s.batch[k]
  {
    assert s.arrived == s.written + s.batch + s.ring;
    forall r | r in s.kept ensures r in s.written {
      SucceededIn(s.recs, s.written, r);
    }
    forall i | 0 <= i < |s.batch| ensures s.arrived[|s.written| + i] == s.batch[i] {
    }
    forall r | r in s.written ensures r !in s.batch {
      var k :| 0 <= k < |s.written| && s.written[k] == r;
      assert s.arrived[k] == r;
    }
  }

  lemma InsertedRow(s: Sys, ids: seq<int>, j: nat)
    requires Good(s) && Enabled(s, Insert(Some(ids))) && j < |ids|
    ensures var t := Next(s, Insert(Some(ids))); var i := |s.db| + j;
            |t.db| == |Stored(t)| && i < |t.db| && RowOf(t, i) && t.db[i].id == ids[j]
  {
    var t := Next(s, Insert(Some(ids)));
    Placed(s);
    assert Stored(s) == s.kept && Stored(t) == s.kept + s.batch;
    assert s.batch[j] in s.batch && t.db[|s.db| + j] == Rows(s, ids)[j];
  }

  lemma InsertRows(s: Sys, result: Option<seq<int>>, i: nat)
    requires Good(s) && Enabled(s, Insert(result)) && i < |Next(s, Insert(result)).db|
    ensures var t := Next(s, Insert(result));
            |t.db| == |Stored(t)| && RowOf(t, i) && forall k :: 0 <= k < i ==> t.db[k].id != t.db[i].id
  {
    var t := Next(s, Insert(result));
    if i < |s.db| {
      assert RowOf(s, i) && Stored(s)[i] == Stored(t)[i];
    } else {
      InsertedRow(s, result.value, i - |s.db|);
      FreshApart(s.db, s.direct, result.value);
      forall k | 0 <= k < i ensures t.db[k].id != t.db[i].id {
        if k >= |s.db| {
          InsertedRow(s, result.value, k - |s.db|);
        }
      }
    }
  }

  lemma InsertKeepsSettled(s: Sys, result: Option<seq<int>>)
    requires Good(s) && Enabled(s, Insert(result))
    ensures Settled(Next(s, Insert(result)))
  {
    var t := Next(s, Insert(result));
    forall i | 0 <= i < |t.db| ensures RowOf(t, i) && forall k :: 0 <= k < i ==> t.db[k].id != t.db[i].id {
      InsertRows(s, result, i);
    }
    forall i | 0 <= i < |t.kept| ensures Delivered(t, i) {
      assert Delivered(s, i);
    }
    forall r | r in t.recs ensures Answers(t, r) {
      assert Answers(s, r);
    }
  }

  lemma PublishRecords(s: Sys, r: nat)
    requires Good(s) && Enabled(s, Publish) && r in s.recs
    ensures var t := Next(s, Publish);
            && r in t.recs && Answers(t, r) && t.recs[r].payload == s.recs[r].payload && t.recs[r].tmp == s.recs[r].tmp
            && (r !in s.batch ==> t.recs[r] == s.recs[r])
            && (r in s.batch ==> t.recs[r].failed == s.outcome.value.None?)
  {
    Placed(s);
    assert Answers(s, r);
    AnsweredKeeps(s.recs, s.batch, s.outcome.value, r);
    if r in s.batch {
      var j :| 0 <= j < |s.batch| && s.batch[j] == r;
      AnsweredHit(s.recs, s.batch, s.outcome.value, j);
    } else {
      AnsweredMiss(s.recs, s.batch, s.outcome.value, r);
    }
  }

  lemma PublishResolves(s: Sys)
    requires Good(s) && Enabled(s, Publish) && s.outcome.value.Some?
    ensures var t := Next(s, Publish);
            && (forall j :: 0 <= j < |s.batch| ==>
                  && s.batch[j] in s.recs && s.recs[s.batch[j]].tmp in t.idMap
                  && t.idMap[s.recs[s.batch[j]].tmp] == s.outcome.value.value[j])
            && (forall r :: r in s.recs && r !in s.batch ==> var k := s.recs[r].tmp;
                  (k in t.idMap <==> k in s.idMap) && (k in s.idMap ==> t.idMap[k] == s.idMap[k]))
  {
    var tmps, ids := Tmps(s.recs, s.batch), s.outcome.value.value;
    Placed(s);
    TmpsDiffer(s);
    forall j | 0 <= j < |s.batch| ensures ids[j] > 0 && s.batch[j] in s.recs && tmps[j] == s.recs[s.batch[j]].tmp {
      assert RowOf(s, |s.kept| + j) && s.batch[j] in s.batch;
    }
    ResolvedAt(s.idMap, tmps, ids);
  }

  lemma PublishKeepsDelivered(s: Sys, i: nat)
    requires Good(s) && Enabled(s, Publish) && i < |s.kept|
    ensures i < |Next(s, Publish).kept| && Delivered(Next(s, Publish), i)
  {
    Placed(s);
    assert Delivered(s, i);
    PublishRecords(s, s.kept[i]);
    if s.outcome.value.Some? {
      PublishResolves(s);
    }
  }

  lemma PublishAnswer(s: Sys, j: nat)
    requires Good(s) && Enabled(s, Publish) && s.outcome.value.Some? && j < |s.batch|
    ensures var t, r := Next(s, Publish), s.batch[j];
            && r in t.recs && r in s.recs && t.recs[r].id == s.db[|s.kept| + j].id && !t.recs[r].failed
            && t.recs[r].tmp == s.recs[r].tmp
  {
    var r := s.batch[j];
    Placed(s);
    assert r in s.batch && Answers(s, r);
    AnsweredHit(s.recs, s.batch, s.outcome.value, j);
  }

  lemma PublishDelivers(s: Sys, j: nat)
    requires Good(s) && Enabled(s, Publish) && s.outcome.value.Some? && j < |s.batch|
    ensures Delivered(Next(s, Publish), |s.kept| + j)
  {
    PublishAnswer(s, j);
    PublishResolves(s);
    KeptAt(s, j);
  }

  lemma KeptAt(s: Sys, j: nat)
    requires Enabled(s, Publish) && s.outcome.value.Some? && j < |s.batch|
    ensures var t := Next(s, Publish);
            |t.kept| == |s.kept| + |s.batch| && t.kept[|s.kept| + j] == s.batch[j] && t.db == s.db
  {
  }

  lemma TmpsDiffer(s: Sys)
    requires Good(s)
    ensures var tmps := Tmps(s.recs, s.batch);
            && (forall i :: 0 <= i < |tmps| ==> tmps[i] < 0)
            && (forall i, k :: 0 <= i < k < |tmps| ==> tmps[i] != tmps[k])
            && (forall r :: r in s.recs && r !in s.batch ==> s.recs[r].tmp !in tmps)
  {
    Placed(s);
    forall i | 0 <= i < |s.batch| ensures s.batch[i] in s.recs {
      assert s.batch[i] in s.batch;
    }
  }

  lemma PublishKeepsSettled(s: Sys)
    requires Good(s) && Enabled(s, Publish)
    ensures Settled(Next(s, Publish))
  {
    var t := Next(s, Publish);
    Placed(s);
    assert Stored(t) == Stored(s);
    forall r ensures r in t.recs <==> r in s.recs {
      AnsweredKeeps(s.recs, s.batch, s.outcome.value, r);
    }
    forall r | r in t.recs ensures Answers(t, r) && t.recs[r].payload == s.recs[r].payload {
      PublishRecords(s, r);
    }
    forall i | 0 <= i < |t.db| ensures RowOf(t, i) {
      assert RowOf(s, i);
    }
    forall i | 0 <= i < |t.kept| ensures Delivered(t, i) {
      if i < |s.kept| {
        PublishKeepsDelivered(s, i);
      } else {
        PublishDelivers(s, i - |s.kept|);
      }
    }
    PublishLine(s);
  }

  lemma PublishLine(s: Sys)
    requires Good(s) && Enabled(s, Publish)
    ensures var t := Next(s, Publish); t.kept == Succeeded(t.recs, t.written)
  {
    var t := Next(s, Publish);
    Placed(s);
    forall r | r in s.written || r in s.batch
      ensures r in s.recs && r in t.recs && (r in s.written ==> t.recs[r].failed == s.recs[r].failed)
      ensures r in s.batch ==> t.recs[r].failed == s.outcome.value.None?
    {
      PublishRecords(s, r);
    }
    SucceededSame(s.recs, t.recs, s.written);
    SucceededConcat(t.recs, s.written, s.batch, s.outcome.value.None?);
  }

  lemma RestRecord(s: Sys, e: Event, r: nat)
    requires Enabled(s, e) && !e.Insert? && !e.Publish? && r in s.recs
    ensures var t := Next(s, e);
            && r in t.recs && t.recs[r].payload == s.recs[r].payload && t.recs[r].tmp == s.recs[r].tmp
            && t.recs[r].signals == s.recs[r].signals && t.recs[r].failed == s.recs[r].failed
            && (s.recs[r].enqueued ==> t.recs[r].id == s.recs[r].id)
  {
    match e
    case Assign(_, _) =>
    case Enqueue(_) =>
    case Abandon(_) =>
    case Directly(_, _) =>
    case _ =>
  }

  lemma RestRows(s: Sys, e: Event)
    requires Enabled(s, e) && !e.Insert? && !e.Publish? && Lined(s)
    ensures var t := Next(s, e); t.db == s.db && t.kept == s.kept && t.written == s.written && t.outcome == s.outcome
    ensures s.outcome.Some? ==> Next(s, e).batch == s.batch
    ensures forall k :: k in Next(s, e).idMap ==> k in s.idMap && Next(s, e).idMap[k] == s.idMap[k]
    ensures forall k :: k in s.idMap || k in s.used ==> k in Next(s, e).idMap || k in Next(s, e).used
    ensures forall r :: r in Next(s, e).recs && r !in s.recs ==>
      Next(s, e).recs[r].signals == 0 && !Next(s, e).recs[r].failed
  {
  }

  lemma RestKeepsSettled(s: Sys, e: Event)
    requires Good(s) && Enabled(s, e) && !e.Insert? && !e.Publish?
    ensures Settled(Next(s, e))
  {
    var t := Next(s, e);
    Placed(s);
    RestRows(s, e);
    forall r | r in s.recs
      ensures r in t.recs && t.recs[r].payload == s.recs[r].payload && t.recs[r].tmp == s.recs[r].tmp
      && t.recs[r].signals == s.recs[r].signals && t.recs[r].failed == s.recs[r].failed
      && (s.recs[r].enqueued ==> t.recs[r].id == s.recs[r].id)
    {
      RestRecord(s, e, r);
    }
    forall i | 0 <= i < |t.db| ensures RowOf(t, i) {
      assert RowOf(s, i);
    }
    forall i | 0 <= i < |t.kept| ensures Delivered(t, i) {
      assert Delivered(s, i);
    }
    forall r | r in t.recs ensures Answers(t, r) {
      assert r in s.recs ==> Answers(s, r);
    }
    SucceededSame(s.recs, t.recs, s.written);
  }

  lemma NextGood(s: Sys, e: Event)
    requires Good(s) && Enabled(s, e)
    ensures Good(Next(s, e))
  {
    NextLined(s, e);
    NextDistinct(s, e);
    NextTabled(s, e);
    match e
    case Insert(result) => InsertKeepsSettled(s, result);
    case Publish => PublishKeepsSettled(s);
    case _ => RestKeepsSettled(s, e);
  }

  lemma {:induction false} RunGood(s: Sys, es: seq<Event>)
    requires Good(s) && ValidRun(s, es)
    ensures Good(Run(s, es))
    decreases |es|
  {
    if es != [] {
      NextGood(s, es[0]);
      RunGood(Next(s, es[0]), es[1..]);
    }
  }

  lemma InitialGood(batchSize: nat, ringCap: nat)
    ensures Good(Initial(batchSize, ringCap))
  {
  }

  /** Batches are never larger than batchSize (0 acts as 1), in every reachable state. */
  lemma BatchBound(batchSize: nat, ringCap: nat, es: seq<Event>)
    requires ValidRun(Initial(batchSize, ringCap), es)
    ensures |Run(Initial(batchSize, ringCap), es).batch| <= if batchSize == 0 then 1 else batchSize
  {
    InitialGood(batchSize, ringCap);
    RunGood(Initial(batchSize, ringCap), es);
    SizeStays(Initial(batchSize, ringCap), es);
  }

  lemma {:induction false} SizeStays(s: Sys, es: seq<Event>)
    requires ValidRun(s, es)
    ensures Run(s, es).batchSize == s.batchSize
    decreases |es|
  {
    if es != [] {
      SizeStays(Next(s, es[0]), es[1..]);
    }
  }

  // The payloads of these records.
  function Payloads(recs: map<nat, Record>, line: seq<nat>): (ps: seq<string>)
    ensures |ps| == |line|
  {
    seq(|line|, i requires 0 <= i < |line| => if line[i] in recs then recs[line[i]].payload else "")
  }

  function RowPayloads(db: seq<Row>): (ps: seq<string>)
    ensures |ps| == |db|
  {
    seq(|db|, i requires 0 <= i < |db| => db[i].payload)
  }

  ghost predicate DistinctIds(rows: seq<Row>) {
    forall i, k :: 0 <= i < k < |rows| ==> rows[i].id != rows[k].id
  }

  // The order of the rows does not matter to whether their IDs are distinct.
  lemma {:induction false} SameBagDistinct(rows: seq<Row>, table: seq<Row>)
    requires DistinctIds(rows) && multiset(table) == multiset(rows)
    ensures DistinctIds(table)
  {
    forall i, k | 0 <= i < k < |table| ensures table[i].id != table[k].id {
      assert table[i] in multiset(table) && table[k] in multiset(table);
      var p :| 0 <= p < |rows| && rows[p] == table[i];
      var q :| 0 <= q < |rows| && rows[q] == table[k];
      if p == q {
        TwiceIn(table, i, k);
        OnceIn(rows, p);
      }
    }
  }

  lemma TwiceIn(table: seq<Row>, i: nat, k: nat)
    requires i < k < |table| && table[i] == table[k]
    ensures multiset(table)[table[i]] >= 2
  {
    assert table == table[..i] + [table[i]] + table[i + 1..k] + [table[k]] + table[k + 1..];
  }

  lemma OnceIn(rows: seq<Row>, p: nat)
    requires DistinctIds(rows) && p < |rows|
    ensures multiset(rows)[rows[p]] == 1
  {
    assert rows == rows[..p] + [rows[p]] + rows[p + 1..];
    assert rows[p] !in rows[..p] && rows[p] !in rows[p + 1..];
    assert multiset(rows) == multiset(rows[..p]) + multiset{rows[p]} + multiset(rows[p + 1..]);
  }

  lemma TableDistinct(s: Sys)
    requires Good(s)
    ensures DistinctIds(s.table)
  {
    forall i, k | 0 <= i < k < |s.db + s.direct| ensures (s.db + s.direct)[i].id != (s.db + s.direct)[k].id {
    }
    SameBagDistinct(s.db + s.direct, s.table);
  }

  /** Buffered insert equals direct insert.  Between batches the table holds exactly two kinds of rows, under distinct
      positive IDs.  The batches' rows are the written records whose batch succeeded, one row each, in the order they
      entered the ring; each of them has its row's ID, which its temporary ID also resolves to until it is used.
      The others are those of records inserted on their own while the buffer was stopping, each with its row's ID.
      Every written record has been signalled exactly once and no other record at all; a failed batch left no row. */
  lemma BufferedEqualsDirect(batchSize: nat, ringCap: nat, es: seq<Event>)
    requires ValidRun(Initial(batchSize, ringCap), es) && Run(Initial(batchSize, ringCap), es).outcome == None
    ensures var s := Run(Initial(batchSize, ringCap), es);
            && s.arrived == s.written + s.batch + s.ring
            && multiset(s.table) == multiset(s.db) + multiset(s.direct) && DistinctIds(s.table)
            && |s.given| == |s.direct| && (forall k :: 0 <= k < |s.given| ==> Given(s, k))
            && RowPayloads(s.db) == Payloads(s.recs, Succeeded(s.recs, s.written))
            && (forall i, k :: 0 <= i < k < |s.db| ==> s.db[i].id != s.db[k].id)
            && |s.db| == |s.kept| && (forall i :: 0 <= i < |s.kept| ==> Delivered(s, i) && s.db[i].id > 0)
            && (forall r :: r in s.recs ==> s.recs[r].signals == if r in s.written then 1 else 0)
  {
    InitialGood(batchSize, ringCap);
    RunGood(Initial(batchSize, ringCap), es);
    var s := Run(Initial(batchSize, ringCap), es);
    assert Stored(s) == s.kept;
    TableDistinct(s);
    forall i | 0 <= i < |s.db| ensures s.db[i].id > 0 && RowPayloads(s.db)[i] == Payloads(s.recs, s.kept)[i] {
      assert RowOf(s, i);
    }
    forall r | r in s.recs ensures s.recs[r].signals == if r in s.written then 1 else 0 {
      assert Answers(s, r);
    }
  }

  /** resolveID: real IDs as they are, temporary ones through the map. */
  function ResolveID(s: Sys, id: int): int {
    if id >= 0 then id else if id in s.idMap then s.idMap[id] else id
  }

  /** A delivered record is found under its real ID and, until that has been used, under its temporary one. */
  lemma ResolvesToRow(s: Sys, i: nat)
    requires Good(s) && i < |s.kept|
    ensures var r := s.kept[i];
            && r in s.recs && ResolveID(s, s.recs[r].id) == s.db[i].id
            && (s.recs[r].tmp !in s.used ==> ResolveID(s, s.recs[r].tmp) == s.db[i].id)
  {
    assert Delivered(s, i) && RowOf(s, i);
  }

  // What the writer tells one caller.
  ghost predicate ToldOf(rec: Record, result: Option<seq<int>>, i: nat) {
    && rec.signals == 1 && rec.failed == result.None?
    && rec.id == if result.Some? && i < |result.value| then result.value[i] else 0
  }

  /** No record waits for its batch to fill: the next tick writes what there is, tells every caller the outcome, and
      leaves the batch empty. */
  lemma TickDelivers(s: Sys, result: Option<seq<int>>)
    requires Good(s) && Enabled(s, Tick)
    requires result.Some? ==> |result.value| == |s.batch| && FreshIds(s.db + s.direct, result.value)
    ensures var flush := [Tick, Insert(result), Publish];
            && ValidRun(s, flush) && var t := Run(s, flush);
            && t.batch == [] && !t.flushing && t.ring == s.ring && t.written == s.written + s.batch
            && forall i :: 0 <= i < |s.batch| ==> s.batch[i] in t.recs && ToldOf(t.recs[s.batch[i]], result, i)
  {
    var u := Next(Next(s, Tick), Insert(result));
    ThreeSteps(s, Tick, Insert(result), Publish);
    Placed(s);
    forall i | 0 <= i < |s.batch|
      ensures s.batch[i] in Next(u, Publish).recs && ToldOf(Next(u, Publish).recs[s.batch[i]], result, i)
    {
      assert s.batch[i] in s.received && Answers(s, s.batch[i]);
      AnsweredHit(u.recs, u.batch, result, i);
    }
  }

  lemma OneStep(s: Sys, e: Event, es: seq<Event>)
    requires Enabled(s, e) && ValidRun(Next(s, e), es)
    ensures ValidRun(s, [e] + es) && Run(s, [e] + es) == Run(Next(s, e), es)
  {
    assert ([e] + es)[1..] == es;
  }

  lemma ThreeSteps(s: Sys, a: Event, b: Event, c: Event)
    requires Enabled(s, a) && Enabled(Next(s, a), b) && Enabled(Next(Next(s, a), b), c)
    ensures ValidRun(s, [a, b, c]) && Run(s, [a, b, c]) == Next(Next(Next(s, a), b), c)
  {
    assert [c] + [] == [c] && [b] + [c] == [b, c] && [a] + [b, c] == [a, b, c];
    OneStep(Next(Next(s, a), b), c, []);
    OneStep(Next(s, a), b, [c]);
    OneStep(s, a, [b, c]);
  }

  /** When the flusher has exited, everything it received has been written and signalled. */
  lemma DrainedOnExit(batchSize: nat, ringCap: nat, es: seq<Event>, r: nat)
    requires ValidRun(Initial(batchSize, ringCap), es)
    ensures var s := Run(Initial(batchSize, ringCap), es);
            s.mode == Exited && r in s.received ==> r in s.written && r in s.recs && s.recs[r].signals == 1
  {
    InitialGood(batchSize, ringCap);
    RunGood(Initial(batchSize, ringCap), es);
    var s := Run(Initial(batchSize, ringCap), es);
    Placed(s);
    assert r in s.recs ==> Answers(s, r);
  }

  /** But a Create that picks the ring when the flusher is gone is never answered. */
  lemma LateRecordStays(s: Sys, r: nat, es: seq<Event>)
    requires s.mode == Exited && !s.flushing && r in s.ring && ValidRun(s, es)
    ensures r in Run(s, es).ring && Run(s, es).written == s.written
    decreases |es|
  {
    if es != [] {
      LateRecordStays(Next(s, es[0]), r, es[1..]);
    }
  }
}
