/** How one step changes one row: the facts every whole-run proof about the batch
    queue is built from. */
module BatchRows {
  import opened Text
  import opened Timestamp
  import opened BatchTypes
  import opened BatchQueue

  /** The cancel calls that reach the item table. */
  predicate Sweeps(s: State, ev: Event, b: BatchId) {
    && ev.Cancel? && ev.batch == b
    && b in s.jobs && (s.jobs[b].status == Queued || s.jobs[b].status == Cancelling)
  }

  predicate Claims(ev: Event, x: ItemId) {
    ev.Claim? && ev.picked == Some(x)
  }

  /** `complete_item`, `fail_item` or `schedule_retry` on `x`. */
  predicate Finishes(ev: Event, x: ItemId) {
    (ev.Complete? || ev.Fail? || ev.ScheduleRetry?) && ev.item == x
  }

  predicate Retries(ev: Event, x: ItemId) {
    ev.ScheduleRetry? && ev.item == x
  }

  function ClaimedRow(i: Item, lease: LeaseId, stamp: nat): Item {
    i.(status := ItemStatus.Processing, leaseId := Some(lease),
       leaseExpiresAt := Some(Format(WrappingAdd(stamp, LEASE_SECS))), attempts := i.attempts + 1)
  }

  function FinishedRow(i: Item, ev: Event): Item
    requires ev.Complete? || ev.Fail? || ev.ScheduleRetry?
  {
    match ev
    case Complete(_, code, body, now) => SucceededRow(i, code, body, now)
    case Fail(_, error, now) => FailedRow(i, error, now)
    case ScheduleRetry(_, readAt, delay, error) => RetriedRow(i, Format(WrappingAdd(readAt, delay)), error)
  }

  lemma InsertAllKeeps(jobs: map<BatchId, Job>, items: map<ItemId, Item>, news: seq<NewItem>, x: ItemId)
    requires InsertAll(jobs, items, news).Some?
    requires x in items
    ensures x in InsertAll(jobs, items, news).value && InsertAll(jobs, items, news).value[x] == items[x]
  {
  }

  lemma {:induction false} InsertAllAdds(jobs: map<BatchId, Job>, items: map<ItemId, Item>, news: seq<NewItem>, x: ItemId)
    requires InsertAll(jobs, items, news).Some?
    requires x !in items && x in InsertAll(jobs, items, news).value
    ensures exists n :: n in news && n.id == x && n.batchId in jobs
                        && InsertAll(jobs, items, news).value[x] == ItemRow(n)
  {
    var n := news[|news| - 1];
    if n.id != x {
      InsertAllAdds(jobs, items, news[..|news| - 1], x);
      var m :| m in news[..|news| - 1] && m.id == x && m.batchId in jobs
               && InsertAll(jobs, items, news[..|news| - 1]).value[x] == ItemRow(m);
      assert m in news;
    }
  }

  lemma RowUnderClaim(s: State, ev: Event, x: ItemId)
    requires ev.Claim? && x in s.items && Legal(s, ev)
    ensures x in Apply(s, ev).items
    ensures Apply(s, ev).items[x] == if Claims(ev, x) then ClaimedRow(s.items[x], ev.lease, ev.stamp) else s.items[x]
  {
  }

  lemma RowUnderFinish(s: State, ev: Event, x: ItemId)
    requires (ev.Complete? || ev.Fail? || ev.ScheduleRetry?) && x in s.items
    ensures x in Apply(s, ev).items
    ensures Apply(s, ev).items[x] == if ev.item == x then FinishedRow(s.items[x], ev) else s.items[x]
  {
  }

  lemma RowUnderCancel(s: State, ev: Event, x: ItemId)
    requires ev.Cancel? && x in s.items
    ensures x in Apply(s, ev).items
    ensures Apply(s, ev).items[x] == if Sweeps(s, ev, s.items[x].batchId)
                                     then DropPending(s.items[x], s.items[x].batchId) else s.items[x]
  {
  }

  lemma RowUnderOther(s: State, ev: Event, x: ItemId)
    requires x in s.items
    requires ev.Enqueue? || ev.MoveToDeadLetter? || ev.CompleteBatch? || ev.UpdateProgress? || ev.Reclaim?
    ensures x in Apply(s, ev).items
    ensures Apply(s, ev).items[x] == if ev.Reclaim? then Reclaimed(s.items[x], ev.now) else s.items[x]
  {
    if ev.Enqueue? {
      var jobs := s.jobs[ev.job.id := JobRow(ev.job)];
      if InsertAll(jobs, s.items, ev.news).Some? {
        InsertAllKeeps(jobs, s.items, ev.news, x);
      }
    }
  }

  /** What a step leaves in the row of `x`. */
  function RowAfter(s: State, ev: Event, x: ItemId): Item
    requires x in s.items
  {
    var i := s.items[x];
    if Claims(ev, x) then ClaimedRow(i, ev.lease, ev.stamp)
    else if Finishes(ev, x) then FinishedRow(i, ev)
    else if Sweeps(s, ev, i.batchId) then DropPending(i, i.batchId)
    else if ev.Reclaim? then Reclaimed(i, ev.now)
    else i
  }

  /** A row, once there, changes only by the calls that name it, by a sweep of its
      batch, or by a reclaim; no call removes it. */
  lemma RowStep(s: State, ev: Event, x: ItemId)
    requires x in s.items && Legal(s, ev)
    ensures x in Apply(s, ev).items && Apply(s, ev).items[x] == RowAfter(s, ev, x)
  {
    if ev.Claim? {
      RowUnderClaim(s, ev, x);
    } else if ev.Complete? || ev.Fail? || ev.ScheduleRetry? {
      RowUnderFinish(s, ev, x);
    } else if ev.Cancel? {
      RowUnderCancel(s, ev, x);
    } else {
      RowUnderOther(s, ev, x);
    }
  }

  /** Rows appear only by a successful `enqueue`. */
  lemma RowAppears(s: State, ev: Event, x: ItemId)
    requires x !in s.items && x in Apply(s, ev).items
    ensures ev.Enqueue? && EnqueueSucceeds(s, ev.job, ev.news)
    ensures exists n :: n in ev.news && n.id == x && Apply(s, ev).items[x] == ItemRow(n)
  {
    if ev.Enqueue? {
      InsertAllAdds(s.jobs[ev.job.id := JobRow(ev.job)], s.items, ev.news, x);
    }
  }

  /** The one status change a step can make to a job that is already there. */
  function JobStatusAfter(s: State, b: BatchId, ev: Event): BatchStatus
    requires b in s.jobs
  {
    var st := s.jobs[b].status;
    if ev.Cancel? && ev.batch == b then CancelTarget(st)
    else if ev.CompleteBatch? && ev.batch == b then Completed
    else if ev.Claim? && ev.picked.Some? && ev.picked.value in s.items
            && s.items[ev.picked.value].batchId == b && st == Queued then BatchStatus.Processing
    else st
  }

  lemma JobUnderClaim(s: State, ev: Event, b: BatchId)
    requires ev.Claim? && b in s.jobs && Legal(s, ev)
    ensures b in Apply(s, ev).jobs
    ensures Apply(s, ev).jobs[b].status == JobStatusAfter(s, b, ev)
    ensures Apply(s, ev).jobs[b].counts == s.jobs[b].counts
    ensures Apply(s, ev).jobs[b].mode == s.jobs[b].mode
  {
  }

  lemma JobUnderCancel(s: State, ev: Event, b: BatchId)
    requires ev.Cancel? && b in s.jobs
    ensures b in Apply(s, ev).jobs
    ensures Apply(s, ev).jobs[b].status == JobStatusAfter(s, b, ev)
    ensures Apply(s, ev).jobs[b].counts == s.jobs[b].counts
    ensures Apply(s, ev).jobs[b].mode == s.jobs[b].mode
  {
  }

  lemma JobUnderOther(s: State, ev: Event, b: BatchId)
    requires !ev.Claim? && !ev.Cancel? && b in s.jobs
    ensures b in Apply(s, ev).jobs
    ensures Apply(s, ev).jobs[b].status == JobStatusAfter(s, b, ev)
    ensures Apply(s, ev).jobs[b].counts.total == s.jobs[b].counts.total
    ensures Apply(s, ev).jobs[b].mode == s.jobs[b].mode
  {
  }

  lemma JobStep(s: State, ev: Event, b: BatchId)
    requires b in s.jobs && Legal(s, ev)
    ensures b in Apply(s, ev).jobs
    ensures Apply(s, ev).jobs[b].status == JobStatusAfter(s, b, ev)
    ensures Apply(s, ev).jobs[b].counts.total == s.jobs[b].counts.total
    ensures Apply(s, ev).jobs[b].mode == s.jobs[b].mode
  {
    if ev.Claim? {
      JobUnderClaim(s, ev, b);
    } else if ev.Cancel? {
      JobUnderCancel(s, ev, b);
    } else {
      JobUnderOther(s, ev, b);
    }
  }

  lemma JobAppears(s: State, ev: Event, b: BatchId)
    requires b !in s.jobs && b in Apply(s, ev).jobs
    ensures ev.Enqueue? && ev.job.id == b && EnqueueSucceeds(s, ev.job, ev.news)
    ensures Apply(s, ev).jobs[b] == JobRow(ev.job)
  {
  }

  /** Batch membership never changes. */
  lemma RowBatch(s: State, ev: Event, x: ItemId)
    requires x in s.items && Legal(s, ev)
    ensures x in Apply(s, ev).items && Apply(s, ev).items[x].batchId == s.items[x].batchId
  {
    RowStep(s, ev, x);
  }
}
