/** When the buffer flushes, what becomes of the records it turns away, and what its map from temporary to real IDs
    holds. */
module LogFates {
  import opened Basics
  import opened LogBuffer

  /** Receiving a record starts a flush exactly when it completes a full batch. */
  lemma FlushesWhenFull(s: Sys)
    requires Good(s) && Enabled(s, Receive)
    ensures Next(s, Receive).flushing <==> |Next(s, Receive).batch| == Limit(s)
  {
    NextLined(s, Receive);
  }

  // ---------- Records turned away ----------

  // Create has given up on this record: it has no ID, temporary or real.
  predicate TurnedAway(s: Sys, r: nat) {
    r in s.recs && !s.recs[r].enqueued && s.recs[r].id == 0
  }

  lemma NextTurnsAway(s: Sys, e: Event, r: nat)
    requires Good(s) && Enabled(s, e) && TurnedAway(s, r)
    ensures TurnedAway(Next(s, e), r)
  {
    match e
    case Publish =>
      Placed(s);
      assert r !in s.arrived;
      AnsweredMiss(s.recs, s.batch, s.outcome.value, r);
    case _ =>
  }

  lemma {:induction false} RunTurnsAway(s: Sys, es: seq<Event>, r: nat)
    requires Good(s) && ValidRun(s, es) && TurnedAway(s, r)
    ensures TurnedAway(Run(s, es), r) && Good(Run(s, es))
    decreases |es|
  {
    if es != [] {
      NextTurnsAway(s, es[0], r);
      NextGood(s, es[0]);
      RunTurnsAway(Next(s, es[0]), es[1..], r);
    }
  }

  /** A Create that was cancelled, or whose own insert failed while the buffer was stopping, leaves the record without
      an ID for good: it never enters the ring, is never written or signalled, and no row is given to it. */
  lemma GivenUpForGood(s: Sys, e: Event, r: nat, es: seq<Event>)
    requires Good(s) && (e == Abandon(r) || e == Directly(r, None)) && Enabled(s, e) && ValidRun(Next(s, e), es)
    ensures var t := Run(Next(s, e), es);
            && r in t.recs && t.recs[r].id == 0 && t.recs[r].signals == 0
            && r !in t.arrived && r !in t.written && r !in t.kept && r !in t.given
  {
    NextGood(s, e);
    RunTurnsAway(Next(s, e), es, r);
    var t := Run(Next(s, e), es);
    Placed(t);
    assert Answers(t, r);
    forall k | 0 <= k < |t.given| ensures t.given[k] != r {
      assert Given(t, k);
    }
  }

  // ---------- The map ----------

  // The temporary ID of a record that was written.
  ghost predicate IsTmp(s: Sys, k: int) {
    exists i :: 0 <= i < |s.kept| && TmpAt(s, i, k)
  }

  ghost predicate TmpAt(s: Sys, i: nat, k: int)
    requires i < |s.kept|
  {
    s.kept[i] in s.recs && s.recs[s.kept[i]].tmp == k
  }

  ghost predicate Mapped(s: Sys) {
    && (forall k :: k in s.idMap ==> IsTmp(s, k) && k !in s.used)
    && (forall k :: k in s.used ==> IsTmp(s, k))
  }

  lemma StaysTmp(s: Sys, e: Event, k: int)
    requires Good(s) && Enabled(s, e) && IsTmp(s, k)
    ensures IsTmp(Next(s, e), k)
  {
    var i :| 0 <= i < |s.kept| && TmpAt(s, i, k);
    var t := Next(s, e);
    assert i < |t.kept| && t.kept[i] == s.kept[i];
    if e.Publish? {
      PublishRecords(s, s.kept[i]);
    }
    assert TmpAt(t, i, k);
  }

  // A written record's temporary ID is not that of a record still in the batch.
  lemma TmpOnce(s: Sys, k: int, j: nat)
    requires Good(s) && IsTmp(s, k) && j < |s.batch|
    ensures s.batch[j] in s.recs && s.recs[s.batch[j]].tmp != k
  {
    var i :| 0 <= i < |s.kept| && TmpAt(s, i, k);
    Placed(s);
    assert s.kept[i] in s.kept && s.batch[j] in s.batch;
  }

  lemma PublishMaps(s: Sys, ids: seq<int>, k: int)
    requires Good(s) && Mapped(s) && Enabled(s, Publish) && s.outcome == Some(Some(ids)) && k in Next(s, Publish).idMap
    ensures IsTmp(Next(s, Publish), k) && k !in s.used
  {
    var t, tmps := Next(s, Publish), Tmps(s.recs, s.batch);
    PublishedPositive(s, ids);
    TmpsDiffer(s);
    ResolvedAt(s.idMap, tmps, ids);
    if j :| 0 <= j < |tmps| && tmps[j] == k {
      assert s.batch[j] in s.batch;
      PublishRecords(s, s.batch[j]);
      KeptAt(s, j);
      assert TmpAt(t, |s.kept| + j, k);
      assert IsTmp(s, k) ==> false by {
        if IsTmp(s, k) {
          TmpOnce(s, k, j);
        }
      }
    } else {
      StaysTmp(s, Publish, k);
    }
  }

  lemma PublishedPositive(s: Sys, ids: seq<int>)
    requires Good(s) && Enabled(s, Publish) && s.outcome == Some(Some(ids))
    ensures |ids| == |s.batch| && forall j :: 0 <= j < |ids| ==> ids[j] > 0
  {
    forall j | 0 <= j < |ids| ensures ids[j] > 0 {
      assert RowOf(s, |s.kept| + j);
    }
  }

  lemma NextMaps(s: Sys, e: Event)
    requires Good(s) && Mapped(s) && Enabled(s, e)
    ensures Mapped(Next(s, e))
  {
    var t := Next(s, e);
    forall k | IsTmp(s, k) ensures IsTmp(t, k) {
      StaysTmp(s, e, k);
    }
    if e.Publish? && s.outcome.value.Some? {
      forall k | k in t.idMap ensures IsTmp(t, k) && k !in t.used {
        PublishMaps(s, s.outcome.value.value, k);
      }
    }
  }

  lemma {:induction false} RunMaps(s: Sys, es: seq<Event>)
    requires Good(s) && Mapped(s) && ValidRun(s, es)
    ensures Good(Run(s, es)) && Mapped(Run(s, es))
    decreases |es|
  {
    if es != [] {
      NextGood(s, es[0]);
      NextMaps(s, es[0]);
      RunMaps(Next(s, es[0]), es[1..]);
    }
  }

  /** The map never holds more than it must: at every moment its keys are exactly the temporary IDs of the written
      records that have not been used yet. */
  lemma MapHoldsTheUnused(batchSize: nat, ringCap: nat, es: seq<Event>, k: int)
    requires ValidRun(Initial(batchSize, ringCap), es)
    ensures var s := Run(Initial(batchSize, ringCap), es); k in s.idMap <==> IsTmp(s, k) && k !in s.used
  {
    InitialGood(batchSize, ringCap);
    RunMaps(Initial(batchSize, ringCap), es);
    var s := Run(Initial(batchSize, ringCap), es);
    if i :| 0 <= i < |s.kept| && TmpAt(s, i, k) {
      assert Delivered(s, i);
    }
  }
}
