/** The queue object of batch_engine/src/queue/sqlite.rs: each method runs its
    statements on the tables in place and is one step of the state machine. */
module SqliteQueueModel {
  import opened Text
  import opened Timestamp
  import opened BatchTypes
  import opened BatchQueue
  import opened BatchRows
  import opened BatchLeases
  import opened BatchCancel
  import opened BatchCounts

  // ---- the ORDER BY always has a first row ----------------------------------

  lemma PrecedesTotal(s: State, a: ItemId, b: ItemId)
    requires a in s.items && s.items[a].batchId in s.jobs && b in s.items && s.items[b].batchId in s.jobs
    ensures Precedes(s, a, b) || Precedes(s, b, a)
  {
    LessTotal(s.items[a].createdAt, s.items[b].createdAt);
  }

  lemma PrecedesTransitive(s: State, a: ItemId, b: ItemId, c: ItemId)
    requires a in s.items && s.items[a].batchId in s.jobs && b in s.items && s.items[b].batchId in s.jobs
    requires c in s.items && s.items[c].batchId in s.jobs
    requires Precedes(s, a, b) && Precedes(s, b, c)
    ensures Precedes(s, a, c)
  {
    var x, y, z := s.items[a].createdAt, s.items[b].createdAt, s.items[c].createdAt;
    if Less(x, y) && Less(y, z) {
      LessTransitive(x, y, z);
    }
  }

  lemma {:induction false} FirstExists(s: State, candidates: set<ItemId>)
    requires candidates != {}
    requires forall x <- candidates :: x in s.items && s.items[x].batchId in s.jobs
    ensures exists a :: a in candidates && forall b <- candidates :: Precedes(s, a, b)
  {
    hide Precedes;
    var x :| x in candidates;
    var rest := candidates - {x};
    PrecedesTotal(s, x, x);
    if rest == {} {
      assert candidates == {x};
      assert forall b <- candidates :: Precedes(s, x, b);
    } else {
      FirstExists(s, rest);
      var a :| a in rest && forall b <- rest :: Precedes(s, a, b);
      PrecedesTotal(s, a, x);
      if Precedes(s, a, x) {
        assert forall b <- candidates :: Precedes(s, a, b);
      } else {
        forall b | b in candidates
          ensures Precedes(s, x, b)
        {
          if b != x {
            PrecedesTransitive(s, x, a, b);
          }
        }
      }
    }
  }

  lemma PickExists(s: State, candidates: set<ItemId>, now: nat)
    requires candidates == set i | i in s.items && Claimable(s, i, now)
    requires candidates != {}
    ensures exists a :: a in candidates && MayPick(s, a, now)
  {
    hide Precedes;
    FirstExists(s, candidates);
    var a :| a in candidates && forall b <- candidates :: Precedes(s, a, b);
    assert MayPick(s, a, now);
  }

  lemma SameRowsSamePick(s: State, t: State, now: nat)
    requires s.jobs == t.jobs && s.items == t.items
    ensures forall x :: Claimable(s, x, now) <==> Claimable(t, x, now)
    ensures forall x :: MayPick(s, x, now) <==> MayPick(t, x, now)
  {
    hide Format, LessEq;
  }

  /** The inserts of one transaction; `None` rolls back. */
  method InsertItems(jobs: map<BatchId, Job>, items: map<ItemId, Item>, news: seq<NewItem>)
    returns (r: Option<map<ItemId, Item>>)
    ensures r == InsertAll(jobs, items, news)
  {
    hide MayInsert;
    var newItems := items;
    for k := 0 to |news|
      invariant InsertAll(jobs, items, news[..k]) == Some(newItems)
    {
      assert news[..k + 1][..k] == news[..k];
      if !MayInsert(jobs, newItems, news[k]) {
        InsertAllFails(jobs, items, news, k + 1);
        return None;
      }
      newItems := newItems[news[k].id := ItemRow(news[k])];
    }
    assert news[..|news|] == news;
    r := Some(newItems);
  }

  // ---- which item a claim takes ---------------------------------------------

  /** A worker may be given item `x`: the WHERE clause, column by column. */
  ghost predicate Offered(jobs: map<BatchId, Job>, items: map<ItemId, Item>, x: ItemId, now: nat) {
    && x in items && items[x].batchId in jobs
    && items[x].status.Pending?
    && (items[x].nextRetryAt.Some? ==> !Less(Format(now), items[x].nextRetryAt.value))
    && (jobs[items[x].batchId].status.Queued? || jobs[items[x].batchId].status.Processing?)
    && jobs[items[x].batchId].mode.ProxyNative?
  }

  lemma OfferedExactly(s: State, x: ItemId, now: nat)
    ensures Offered(s.jobs, s.items, x, now) <==> Claimable(s, x, now)
  {
    hide Less, LessEq, Format;
    if x in s.items && s.items[x].nextRetryAt.Some? {
      NotAfterIsAtMost(s.items[x].nextRetryAt.value, Format(now));
    }
  }

  /** Every claim in a legal run takes an item on offer whose job has the highest
      priority of all, and among those the oldest; it takes none only if none is on
      offer. */
  lemma ClaimTakesFirst(s: State, ev: Event)
    requires ev.Claim? && Legal(s, ev)
    ensures ev.picked == None <==> forall x :: !Offered(s.jobs, s.items, x, ev.now)
    ensures ev.picked.Some? ==>
              var id := ev.picked.value;
              && Offered(s.jobs, s.items, id, ev.now)
              && forall x :: Offered(s.jobs, s.items, x, ev.now) ==>
                   var p, q := s.jobs[s.items[id].batchId].priority, s.jobs[s.items[x].batchId].priority;
                   q <= p && (q == p ==> !Less(s.items[x].createdAt, s.items[id].createdAt))
  {
    hide Less, LessEq, Format, Claimable, Offered;
    forall x
      ensures Offered(s.jobs, s.items, x, ev.now) <==> Claimable(s, x, ev.now)
    {
      OfferedExactly(s, x, ev.now);
    }
    ClaimableIsItem(s, ev.now);
    if ev.picked.Some? {
      var id := ev.picked.value;
      forall x | Claimable(s, x, ev.now)
        ensures x in s.items && s.items[x].batchId in s.jobs
        ensures s.jobs[s.items[x].batchId].priority <= s.jobs[s.items[id].batchId].priority
        ensures s.jobs[s.items[x].batchId].priority == s.jobs[s.items[id].batchId].priority ==>
                  !Less(s.items[x].createdAt, s.items[id].createdAt)
      {
        NotAfterIsAtMost(s.items[id].createdAt, s.items[x].createdAt);
      }
    }
  }

  lemma ClaimableIsItem(s: State, now: nat)
    ensures forall x :: Claimable(s, x, now) ==> x in s.items && s.items[x].batchId in s.jobs
  {
  }

  class SqliteQueue {
    var jobs: map<BatchId, Job>
    var items: map<ItemId, Item>
    var dead: map<ItemId, DeadLetter>
    ghost var clock: nat
    /** Every call made so far, in mutex order. */
    ghost var log: seq<Event>

    ghost function Db(): State
      reads this
    {
      State(jobs, items, dead, clock)
    }

    ghost predicate Valid()
      reads this
    {
      LegalRun(log) && Replay(log) == Db()
    }

    constructor ()
      ensures Valid() && log == [] && Db() == EMPTY
    {
      jobs, items, dead, clock, log := map[], map[], map[], 0, [];
    }

    /** Close a step: the tables now hold what the state machine says. */
    ghost method Record(ev: Event, before: State)
      requires LegalRun(log) && Replay(log) == before && Legal(before, ev)
      requires Db() == Effect(before, ev)
      modifies this`clock, this`log
      ensures Valid() && log == old(log) + [ev] && Db() == Apply(before, ev)
    {
      AppendLegal(log, ev);
      log := log + [ev];
      clock := ClockAfter(clock, ev);
    }

    method Enqueue(job: NewJob, news: seq<NewItem>) returns (ok: bool)
      requires Valid()
      modifies this
      ensures Valid() && log == old(log) + [Event.Enqueue(job, news)]
      ensures Db() == Apply(old(Db()), Event.Enqueue(job, news))
      ensures ok <==> Insertable(old(jobs), old(items), job, news)
      ensures dead == old(dead) && (!ok ==> jobs == old(jobs) && items == old(items))
      ensures ok ==>
                && jobs == old(jobs)[job.id := Job(job.status, job.mode, job.priority, Counts(job.total, 0, 0, 0, 0, 0),
                                                   job.createdAt, None, None, job.expiresAt)]
                && items.Keys == old(items).Keys + (set n <- news :: n.id)
                && (forall x <- old(items) :: items[x] == old(items)[x])
                && (forall n <- news ::
                      items[n.id] == Item(n.batchId, n.customId, n.status, n.request, None, None, 0, n.maxRetries,
                                          None, None, None, None, n.createdAt, None))
    {
      hide Format, LegalFrom, ReplayFrom;
      ghost var before := Db();
      EnqueueSucceedsExactly(before, job, news);
      ok := job.id !in jobs;
      if ok {
        var newJobs := jobs[job.id := JobRow(job)];
        var newItems := InsertItems(newJobs, items, news);
        ok := newItems.Some?;
        if ok {
          InsertedRows(newJobs, items, news);
          jobs, items := newJobs, newItems.value;
        }
      }
      Record(Event.Enqueue(job, news), before);
    }

    method ClaimNextItem(lease: LeaseId, now: nat, stamp: nat) returns (picked: Option<ItemId>)
      requires Valid() && clock <= now <= stamp
      modifies this
      ensures Valid() && log == old(log) + [Claim(picked, lease, now, stamp)]
      ensures Db() == Apply(old(Db()), Claim(picked, lease, now, stamp))
      ensures picked == None <==> forall x :: !Offered(old(jobs), old(items), x, now)
      ensures picked.Some? ==>
                var id := picked.value;
                && Offered(old(jobs), old(items), id, now)
                && forall x :: Offered(old(jobs), old(items), x, now) ==>
                     var p, q := old(jobs)[old(items)[id].batchId].priority, old(jobs)[old(items)[x].batchId].priority;
                     q <= p && (q == p ==> !Less(old(items)[x].createdAt, old(items)[id].createdAt))
      ensures picked == None ==> jobs == old(jobs) && items == old(items)
      ensures picked.Some? ==>
                var i := old(items)[picked.value]; var j := old(jobs)[i.batchId];
                && items == old(items)[picked.value := i.(
                     status := ItemStatus.Processing, leaseId := Some(lease), attempts := i.attempts + 1,
                     leaseExpiresAt := Some(Format((stamp + 120) % 0x1_0000_0000_0000_0000)))]
                && jobs == if j.status.Queued?
                           then old(jobs)[i.batchId := j.(status := BatchStatus.Processing, startedAt := Some(Format(now)))]
                           else old(jobs)
      ensures dead == old(dead)
    {
      hide LessEq, Precedes, RetryDue;
      hide Format, LegalFrom, ReplayFrom;
      ghost var before := Db();
      var s := State(jobs, items, dead, 0);
      var candidates := set i | i in items && Claimable(s, i, now);
      SameRowsSamePick(s, before, now);
      if candidates == {} {
        picked := None;
        assert forall i <- items :: i !in candidates;
      } else {
        PickExists(s, candidates, now);
        var id :| id in candidates && MayPick(s, id, now);
        picked := Some(id);
        var i := items[id];
        items := items[id := i.(status := ItemStatus.Processing, leaseId := Some(lease),
                                leaseExpiresAt := Some(Format(WrappingAdd(stamp, LEASE_SECS))),
                                attempts := i.attempts + 1)];
        if jobs[i.batchId].status == Queued {
          jobs := jobs[i.batchId := jobs[i.batchId].(status := BatchStatus.Processing, startedAt := Some(Format(now)))];
        }
      }
      ClaimTakesFirst(before, Claim(picked, lease, now, stamp));
      Record(Claim(picked, lease, now, stamp), before);
    }

    method CompleteItem(id: ItemId, code: nat, body: string, now: nat)
      requires Valid() && clock <= now
      modifies this
      ensures Valid() && log == old(log) + [Complete(id, code, body, now)]
      ensures Db() == Apply(old(Db()), Complete(id, code, body, now))
      ensures jobs == old(jobs) && dead == old(dead) && (id !in old(items) ==> items == old(items))
      ensures id in old(items) ==>
                items == old(items)[id := old(items)[id].(
                  status := Succeeded, resultStatus := Some(code), resultBody := Some(body),
                  leaseId := None, leaseExpiresAt := None, completedAt := Some(Format(now)))]
    {
      hide Format, LegalFrom, ReplayFrom;
      ghost var before := Db();
      if id in items {
        items := items[id := items[id].(status := Succeeded, resultStatus := Some(code), resultBody := Some(body),
                                        leaseId := None, leaseExpiresAt := None, completedAt := Some(Format(now)))];
      }
      Record(Complete(id, code, body, now), before);
    }

    method FailItem(id: ItemId, error: string, now: nat)
      requires Valid() && clock <= now
      modifies this
      ensures Valid() && log == old(log) + [Fail(id, error, now)]
      ensures Db() == Apply(old(Db()), Fail(id, error, now))
      ensures jobs == old(jobs) && dead == old(dead) && (id !in old(items) ==> items == old(items))
      ensures id in old(items) ==>
                items == old(items)[id := old(items)[id].(
                  status := ItemStatus.Failed, lastError := Some(error),
                  leaseId := None, leaseExpiresAt := None, completedAt := Some(Format(now)))]
    {
      hide Format, LegalFrom, ReplayFrom;
      ghost var before := Db();
      if id in items {
        items := items[id := items[id].(status := ItemStatus.Failed, lastError := Some(error),
                                        leaseId := None, leaseExpiresAt := None, completedAt := Some(Format(now)))];
      }
      Record(Fail(id, error, now), before);
    }

    /** `readAt` is the clock before the mutex is taken. */
    method ScheduleRetry(id: ItemId, readAt: nat, delay: nat, error: string)
      requires Valid()
      modifies this
      ensures Valid() && log == old(log) + [Event.ScheduleRetry(id, readAt, delay, error)]
      ensures Db() == Apply(old(Db()), Event.ScheduleRetry(id, readAt, delay, error))
      ensures jobs == old(jobs) && dead == old(dead) && (id !in old(items) ==> items == old(items))
      ensures id in old(items) ==>
                items == old(items)[id := old(items)[id].(
                  status := Pending, lastError := Some(error), leaseId := None, leaseExpiresAt := None,
                  nextRetryAt := Some(Format((readAt + delay) % 0x1_0000_0000_0000_0000)))]
    {
      hide Format, LegalFrom, ReplayFrom;
      ghost var before := Db();
      var retryAt := Format(WrappingAdd(readAt, delay));
      if id in items {
        items := items[id := items[id].(status := Pending, lastError := Some(error), nextRetryAt := Some(retryAt),
                                        leaseId := None, leaseExpiresAt := None)];
      }
      Record(Event.ScheduleRetry(id, readAt, delay, error), before);
    }

    method MoveItemToDeadLetter(id: ItemId, now: nat)
      requires Valid() && clock <= now
      modifies this
      ensures Valid() && log == old(log) + [MoveToDeadLetter(id, now)]
      ensures Db() == Apply(old(Db()), MoveToDeadLetter(id, now))
      ensures jobs == old(jobs) && items == old(items)
      ensures id !in old(items) || id in old(dead) ==> dead == old(dead)
      ensures id in old(items) && id !in old(dead) ==>
                var i := old(items)[id];
                dead == old(dead)[id := DeadLetter(i.batchId, i.customId, i.request, i.lastError, i.attempts, Format(now))]
    {
      hide Format, LegalFrom, ReplayFrom;
      ghost var before := Db();
      if id in items && id !in dead {
        var i := items[id];
        dead := dead[id := DeadLetter(i.batchId, i.customId, i.request, i.lastError, i.attempts, Format(now))];
      }
      Record(MoveToDeadLetter(id, now), before);
    }

    /** `None` is the not-found error. */
    method CancelBatch(b: BatchId, now: nat) returns (job: Option<Job>)
      requires Valid() && clock <= now
      modifies this
      ensures Valid() && log == old(log) + [Cancel(b, now)]
      ensures Db() == Apply(old(Db()), Cancel(b, now))
      ensures job == (if b in jobs then Some(jobs[b]) else None)
      ensures job == None <==> b !in old(jobs)
      ensures job.Some? ==> !job.value.status.Queued? && !job.value.status.Processing?
      ensures dead == old(dead)
      ensures b !in old(jobs) || old(jobs)[b].status in {Completed, BatchStatus.Failed, BatchStatus.Cancelled, Expired} ==>
                jobs == old(jobs) && items == old(items)
      ensures b in old(jobs) && old(jobs)[b].status == BatchStatus.Processing ==>
                jobs == old(jobs)[b := old(jobs)[b].(status := Cancelling)] && items == old(items)
      ensures b in old(jobs) && old(jobs)[b].status in {Queued, Cancelling} ==>
                && jobs == old(jobs)[b := old(jobs)[b].(status := BatchStatus.Cancelled, completedAt := Some(Format(now)))]
                && items.Keys == old(items).Keys
                && forall x <- items ::
                     items[x] == if old(items)[x].batchId == b && old(items)[x].status == Pending
                                 then old(items)[x].(status := ItemStatus.Cancelled) else old(items)[x]
    {
      hide Format, LegalFrom, ReplayFrom;
      ghost var before := Db();
      if b in jobs && !jobs[b].status.IsTerminal() {
        var target := CancelTarget(jobs[b].status);
        jobs := jobs[b := jobs[b].(status := target,
                                   completedAt := if target == BatchStatus.Cancelled then Some(Format(now))
                                                  else jobs[b].completedAt)];
        if target == BatchStatus.Cancelled {
          items := map i <- items :: DropPending(items[i], b);
        }
      }
      job := if b in jobs then Some(jobs[b]) else None;
      Record(Cancel(b, now), before);
    }

    method BatchIsComplete(b: BatchId) returns (complete: bool)
      ensures complete <==> forall x <- items :: items[x].batchId == b ==>
                               items[x].status in {Succeeded, ItemStatus.Failed, ItemStatus.Cancelled}
    {
      complete := |set i <- items | items[i].batchId == b
                                    && items[i].status !in {Succeeded, ItemStatus.Failed, ItemStatus.Cancelled}| == 0;
      CompleteIffTerminal(Db(), b);
    }

    method FinishBatch(b: BatchId, now: nat)
      requires Valid() && clock <= now
      modifies this
      ensures Valid() && log == old(log) + [CompleteBatch(b, now)]
      ensures Db() == Apply(old(Db()), CompleteBatch(b, now))
      ensures items == old(items) && dead == old(dead) && (b !in old(jobs) ==> jobs == old(jobs))
      ensures b in old(jobs) ==>
                var j := old(jobs)[b];
                jobs == old(jobs)[b := j.(
                  status := Completed, completedAt := Some(Format(now)),
                  counts := j.counts.(
                    processing := 0,
                    succeeded := |set x <- items | items[x].batchId == b && items[x].status.Succeeded?|,
                    failed := |set x <- items | items[x].batchId == b && items[x].status.Failed?|,
                    cancelled := |set x <- items | items[x].batchId == b && items[x].status.Cancelled?|))]
    {
      hide Format, LegalFrom, ReplayFrom;
      ghost var before := Db();
      var s := State(jobs, items, dead, 0);
      var succeeded := |ItemsIn(s, b, Succeeded)|;
      var failed := |ItemsIn(s, b, ItemStatus.Failed)|;
      var cancelled := |ItemsIn(s, b, ItemStatus.Cancelled)|;
      assert forall st :: ItemsIn(s, b, st) == ItemsIn(before, b, st);
      assert ItemsIn(s, b, Succeeded) == set x <- items | items[x].batchId == b && items[x].status.Succeeded?;
      assert ItemsIn(s, b, ItemStatus.Failed) == set x <- items | items[x].batchId == b && items[x].status.Failed?;
      assert ItemsIn(s, b, ItemStatus.Cancelled) == set x <- items | items[x].batchId == b && items[x].status.Cancelled?;
      if b in jobs {
        var j := jobs[b];
        jobs := jobs[b := j.(status := Completed, completedAt := Some(Format(now)),
                             counts := j.counts.(processing := 0, succeeded := succeeded, failed := failed,
                                                 cancelled := cancelled))];
      }
      Record(CompleteBatch(b, now), before);
    }

    method UpdateProgress(b: BatchId, counts: Counts)
      requires Valid()
      modifies this
      ensures Valid() && log == old(log) + [Event.UpdateProgress(b, counts)]
      ensures Db() == Apply(old(Db()), Event.UpdateProgress(b, counts))
      ensures items == old(items) && dead == old(dead) && (b !in old(jobs) ==> jobs == old(jobs))
      ensures b in old(jobs) ==>
                jobs == old(jobs)[b := old(jobs)[b].(
                  counts := Counts(old(jobs)[b].counts.total, counts.processing, counts.succeeded, counts.failed,
                                   counts.cancelled, counts.expired))]
    {
      hide Format, LegalFrom, ReplayFrom;
      ghost var before := Db();
      if b in jobs {
        jobs := jobs[b := jobs[b].(counts := counts.(total := jobs[b].counts.total))];
      }
      Record(Event.UpdateProgress(b, counts), before);
    }

    /** Returns how many leases were taken back. */
    method ReclaimExpiredLeases(now: nat) returns (count: nat)
      requires Valid() && clock <= now
      modifies this
      ensures Valid() && log == old(log) + [Reclaim(now)]
      ensures Db() == Apply(old(Db()), Reclaim(now))
      ensures jobs == old(jobs) && dead == old(dead) && items.Keys == old(items).Keys
      ensures forall x <- items ::
                var i := old(items)[x];
                items[x] == if i.status.Processing? && i.leaseId.Some? && i.leaseExpiresAt.Some?
                               && Less(i.leaseExpiresAt.value, Format(now))
                            then i.(status := Pending, leaseId := None, leaseExpiresAt := None) else i
      ensures count == |set x <- items | items[x] != old(items)[x]|
    {
      hide Format, LegalFrom, ReplayFrom;
      ghost var before := Db();
      var expired := set i <- items | LeaseExpired(items[i], now);
      count := |expired|;
      items := map i <- items :: Reclaimed(items[i], now);
      assert expired == set x <- items | items[x] != before.items[x];
      Record(Reclaim(now), before);
    }
  }

  /** One violated constraint fails the whole insert. */
  lemma {:induction false} InsertAllFails(jobs: map<BatchId, Job>, items: map<ItemId, Item>, news: seq<NewItem>, k: nat)
    requires k <= |news| && InsertAll(jobs, items, news[..k]) == None
    ensures InsertAll(jobs, items, news) == None
    decreases |news| - k
  {
    if k == |news| {
      assert news[..k] == news;
    } else {
      assert news[..k + 1][..k] == news[..k];
      InsertAllFails(jobs, items, news, k + 1);
    }
  }

  /** The constraints of the tables: the batch is new, the item ids are new and differ,
      every item belongs to a batch that exists, and no batch has a custom id twice. */
  ghost predicate Insertable(jobs: map<BatchId, Job>, items: map<ItemId, Item>, job: NewJob, news: seq<NewItem>) {
    && job.id !in jobs
    && (forall k :: 0 <= k < |news| ==>
          && news[k].id !in items && (news[k].batchId in jobs || news[k].batchId == job.id)
          && forall x <- items :: items[x].batchId != news[k].batchId || items[x].customId != news[k].customId)
    && (forall a, b :: 0 <= a < b < |news| ==>
          && news[a].id != news[b].id
          && (news[a].batchId != news[b].batchId || news[a].customId != news[b].customId))
  }

  lemma {:induction false} InsertedIsThere(jobs: map<BatchId, Job>, items: map<ItemId, Item>, news: seq<NewItem>, a: nat, b: nat)
    requires a < b <= |news| && InsertAll(jobs, items, news[..b]).Some?
    ensures news[a].id in InsertAll(jobs, items, news[..b]).value
    ensures InsertAll(jobs, items, news[..b]).value[news[a].id] == ItemRow(news[a])
    decreases b
  {
    assert news[..b][..b - 1] == news[..b - 1];
    if a < b - 1 {
      InsertedIsThere(jobs, items, news, a, b - 1);
    }
  }

  lemma InsertedRows(jobs: map<BatchId, Job>, items: map<ItemId, Item>, news: seq<NewItem>)
    requires InsertAll(jobs, items, news).Some?
    ensures var r := InsertAll(jobs, items, news).value;
            && r.Keys == items.Keys + (set n <- news :: n.id)
            && (forall x <- items :: r[x] == items[x])
            && (forall n <- news :: r[n.id] == ItemRow(n))
  {
    hide MayInsert;
    var r := InsertAll(jobs, items, news).value;
    assert news[..|news|] == news;
    forall x | x in items
      ensures x in r && r[x] == items[x]
    {
      InsertAllKeeps(jobs, items, news, x);
    }
    forall n | n in news
      ensures n.id in r && r[n.id] == ItemRow(n)
    {
      var a :| 0 <= a < |news| && news[a] == n;
      InsertedIsThere(jobs, items, news, a, |news|);
    }
    forall x | x in r && x !in items
      ensures exists n :: n in news && n.id == x
    {
      InsertAllAdds(jobs, items, news, x);
    }
  }

  /** One insert after the ones before it: the constraints against those and against what
      was there. */
  lemma MayInsertExactly(jobs: map<BatchId, Job>, items: map<ItemId, Item>, news: seq<NewItem>, k: nat)
    requires k < |news| && InsertAll(jobs, items, news[..k]).Some?
    ensures MayInsert(jobs, InsertAll(jobs, items, news[..k]).value, news[k]) <==>
              var n := news[k];
              && n.id !in items && n.batchId in jobs
              && (forall x <- items :: items[x].batchId != n.batchId || items[x].customId != n.customId)
              && (forall a :: 0 <= a < k ==> news[a].id != n.id
                                             && (news[a].batchId != n.batchId || news[a].customId != n.customId))
  {
    var n := news[k];
    var r := InsertAll(jobs, items, news[..k]).value;
    InsertedRows(jobs, items, news[..k]);
    hide InsertAll;
    forall a | 0 <= a < k
      ensures news[a] in news[..k] && news[a].id in r && r[news[a].id] == ItemRow(news[a])
    {
      assert news[..k][a] == news[a];
    }
    forall x | x in r
      ensures x in items || exists a :: 0 <= a < k && news[a].id == x && r[x] == ItemRow(news[a])
    {
      if x !in items {
        var m :| m in news[..k] && m.id == x;
        var a :| 0 <= a < |news[..k]| && news[..k][a] == m;
        assert news[a] == m;
      }
    }
  }

  ghost predicate InsertableUpTo(jobs: map<BatchId, Job>, items: map<ItemId, Item>, news: seq<NewItem>, k: nat)
    requires k <= |news|
  {
    forall b :: 0 <= b < k ==>
      && news[b].id !in items && news[b].batchId in jobs
      && (forall x <- items :: items[x].batchId != news[b].batchId || items[x].customId != news[b].customId)
      && (forall a :: 0 <= a < b ==> news[a].id != news[b].id
                                     && (news[a].batchId != news[b].batchId || news[a].customId != news[b].customId))
  }

  lemma {:induction false} InsertsExactly(jobs: map<BatchId, Job>, items: map<ItemId, Item>, news: seq<NewItem>, k: nat)
    requires k <= |news|
    ensures InsertAll(jobs, items, news[..k]).Some? <==> InsertableUpTo(jobs, items, news, k)
  {
    hide MayInsert;
    if k > 0 {
      InsertsExactly(jobs, items, news, k - 1);
      assert news[..k][..k - 1] == news[..k - 1];
      if InsertAll(jobs, items, news[..k - 1]).Some? {
        MayInsertExactly(jobs, items, news, k - 1);
      }
    }
  }

  /** A submission is stored if and only if it meets the constraints, row by row. */
  lemma EnqueueSucceedsExactly(s: State, job: NewJob, news: seq<NewItem>)
    ensures EnqueueSucceeds(s, job, news) <==> Insertable(s.jobs, s.items, job, news)
  {
    hide InsertAll;
    assert news[..|news|] == news;
    InsertsExactly(s.jobs[job.id := JobRow(job)], s.items, news, |news|);
  }

  /** A submission with fresh ids is accepted exactly when its custom ids differ. */
  lemma SubmitSucceedsExactly(s: State, job: NewJob, news: seq<NewItem>)
    requires job.id !in s.jobs && (forall x <- s.items :: s.items[x].batchId in s.jobs)
    requires forall n <- news :: n.batchId == job.id && n.id !in s.items
    requires forall a, b :: 0 <= a < b < |news| ==> news[a].id != news[b].id
    ensures EnqueueSucceeds(s, job, news)
        <==> forall a, b :: 0 <= a < b < |news| ==> news[a].customId != news[b].customId
  {
    hide EnqueueSucceeds;
    EnqueueSucceedsExactly(s, job, news);
    assert forall k :: 0 <= k < |news| ==> news[k] in news;
  }
}
