/** Cancellation, terminal statuses and completion over whole runs of the batch queue. */
module BatchCancel {
  import opened Text
  import opened Timestamp
  import opened BatchTypes
  import opened BatchQueue
  import opened BatchRows
  import opened BatchLeases

  // ---- cancellation is final for claiming -----------------------------------

  lemma ClosedStep(s: State, ev: Event, b: BatchId)
    requires b in s.jobs && !Open(s.jobs[b].status) && Legal(s, ev)
    ensures b in Apply(s, ev).jobs && !Open(Apply(s, ev).jobs[b].status)
    ensures ev.Claim? && ev.picked.Some? ==>
              ev.picked.value in s.items && s.items[ev.picked.value].batchId != b
  {
    hide Apply;
    JobStep(s, ev, b);
  }

  lemma CancelCloses(s: State, b: BatchId, now: nat)
    requires b in s.jobs
    ensures b in Apply(s, Cancel(b, now)).jobs && !Open(Apply(s, Cancel(b, now)).jobs[b].status)
  {
  }

  lemma {:induction false} StaysClosed(s: State, evs: seq<Event>, b: BatchId)
    requires LegalFrom(s, evs) && b in s.jobs && !Open(s.jobs[b].status)
    ensures b in ReplayFrom(s, evs).jobs && !Open(ReplayFrom(s, evs).jobs[b].status)
    decreases |evs|
  {
    hide Apply, Legal;
    if |evs| > 0 {
      var n := |evs| - 1;
      PrefixLegal(s, evs, n);
      StaysClosed(s, evs[..n], b);
      StepAt(s, evs, n);
      ClosedStep(ReplayFrom(s, evs[..n]), evs[n], b);
    }
  }

  /** Once `cancel` has returned for a batch, no later call of any kind claims one
      of its items, and its status is never again queued or processing. */
  lemma CancelIsFinal(s: State, b: BatchId, now: nat, evs: seq<Event>, k: nat)
    requires b in s.jobs && k < |evs|
    requires LegalFrom(Apply(s, Cancel(b, now)), evs)
    ensures var t := ReplayFrom(Apply(s, Cancel(b, now)), evs[..k]);
            && b in t.jobs && !Open(t.jobs[b].status)
            && (evs[k].Claim? && evs[k].picked.Some? ==>
                  evs[k].picked.value in t.items && t.items[evs[k].picked.value].batchId != b)
  {
    hide Apply, Legal;
    var start := Apply(s, Cancel(b, now));
    CancelCloses(s, b, now);
    PrefixLegal(start, evs, k);
    StaysClosed(start, evs[..k], b);
    StepAt(start, evs, k);
    ClosedStep(ReplayFrom(start, evs[..k]), evs[k], b);
  }

  // ---- terminal statuses ----------------------------------------------------

  /** A terminal job status is not final: `complete_batch` has no status guard.
      It changes exactly by that call, and only to completed. */
  lemma TerminalJobChangesExactly(s: State, ev: Event, b: BatchId)
    requires b in s.jobs && s.jobs[b].status.IsTerminal() && Legal(s, ev)
    ensures b in Apply(s, ev).jobs && Apply(s, ev).jobs[b].status.IsTerminal()
    ensures Apply(s, ev).jobs[b].status != s.jobs[b].status
        <==> ev.CompleteBatch? && ev.batch == b && s.jobs[b].status != Completed
  {
    hide Apply;
    JobStep(s, ev, b);
  }

  /** The status a finishing call writes. */
  function FinishStatus(ev: Event): ItemStatus {
    if ev.Complete? then Succeeded else if ev.Fail? then ItemStatus.Failed else Pending
  }

  /** Nor is a terminal item status: the finishing calls filter on the id alone, so
      a late one overwrites it. It changes exactly by such a call. */
  lemma TerminalItemChangesExactly(s: State, ev: Event, x: ItemId)
    requires x in s.items && s.items[x].status.IsTerminal() && Legal(s, ev)
    ensures x in Apply(s, ev).items
    ensures Apply(s, ev).items[x].status != s.items[x].status
        <==> Finishes(ev, x) && FinishStatus(ev) != s.items[x].status
  {
    hide Apply, Format, MayPick;
    RowStep(s, ev, x);
    if Claims(ev, x) {
      PickedIsPending(s, ev, x);
    }
  }

  /** The worker discipline: finishing calls only on an item that is leased. */
  predicate Disciplined(s: State, ev: Event) {
    (ev.Complete? || ev.Fail? || ev.ScheduleRetry?) && ev.item in s.items ==>
      s.items[ev.item].status == ItemStatus.Processing
  }

  ghost predicate DisciplinedFrom(s: State, evs: seq<Event>) {
    forall k :: 0 <= k < |evs| ==> Disciplined(ReplayFrom(s, evs[..k]), evs[k])
  }

  lemma DisciplinedPrefix(s: State, evs: seq<Event>, n: nat)
    requires LegalFrom(s, evs) && DisciplinedFrom(s, evs) && n < |evs|
    ensures LegalFrom(s, evs[..n]) && DisciplinedFrom(s, evs[..n])
    ensures Legal(ReplayFrom(s, evs[..n]), evs[n]) && Disciplined(ReplayFrom(s, evs[..n]), evs[n])
    ensures evs[..n + 1] == evs[..n] + [evs[n]]
  {
    hide Apply, Legal, Disciplined;
    PrefixLegal(s, evs, n);
    StepAt(s, evs, n);
    forall j | 0 <= j < n
      ensures Disciplined(ReplayFrom(s, evs[..n][..j]), evs[..n][j])
    {
      assert evs[..n][..j] == evs[..j];
    }
  }

  lemma TerminalRowStep(s: State, ev: Event, x: ItemId)
    requires x in s.items && s.items[x].status.IsTerminal() && Legal(s, ev) && Disciplined(s, ev)
    ensures RowAfter(s, ev, x) == s.items[x]
  {
    hide Format, MayPick;
    if Claims(ev, x) {
      PickedIsPending(s, ev, x);
    }
  }

  /** Under the discipline a terminal item's whole row never changes again. */
  lemma {:induction false} TerminalItemsStay(s: State, evs: seq<Event>, x: ItemId)
    requires LegalFrom(s, evs) && DisciplinedFrom(s, evs)
    requires x in s.items && s.items[x].status.IsTerminal()
    ensures x in ReplayFrom(s, evs).items && ReplayFrom(s, evs).items[x] == s.items[x]
    decreases |evs|
  {
    hide Apply, Legal, Disciplined;
    if |evs| > 0 {
      var n := |evs| - 1;
      DisciplinedPrefix(s, evs, n);
      TerminalItemsStay(s, evs[..n], x);
      RowStep(ReplayFrom(s, evs[..n]), evs[n], x);
      TerminalRowStep(ReplayFrom(s, evs[..n]), evs[n], x);
    }
  }

  // ---- cancelling a queued batch --------------------------------------------

  /** No item of a queued job has been touched. */
  ghost predicate QueuedUntouched(s: State) {
    forall x <- s.items ::
      && s.items[x].batchId in s.jobs
      && (s.jobs[s.items[x].batchId].status == Queued ==> s.items[x].status == Pending && s.items[x].attempts == 0)
  }

  lemma UntouchedRowStep(s: State, ev: Event, x: ItemId)
    requires QueuedUntouched(s) && x in s.items && Legal(s, ev) && Disciplined(s, ev)
    requires JobStatusAfter(s, s.items[x].batchId, ev) == Queued
    ensures RowAfter(s, ev, x).status == Pending && RowAfter(s, ev, x).attempts == 0
  {
    hide Format, MayPick;
    if Claims(ev, x) {
      PickedIsPending(s, ev, x);
    }
  }

  lemma FreshRow(s: State, ev: Event, x: ItemId)
    requires x !in s.items && x in Apply(s, ev).items && Submitted(ev)
    ensures Apply(s, ev).items[x].status == Pending && Apply(s, ev).items[x].attempts == 0
    ensures Apply(s, ev).items[x].batchId == ev.job.id && ev.job.id in Apply(s, ev).jobs
  {
    hide Format, MayPick;
    RowAppears(s, ev, x);
  }

  lemma {:induction false} QueuedJobsAreUntouched(evs: seq<Event>)
    requires SubmitRun(evs) && DisciplinedFrom(EMPTY, evs)
    ensures QueuedUntouched(Replay(evs))
    decreases |evs|
  {
    hide Apply, Legal, Disciplined, JobStatusAfter;
    if |evs| > 0 {
      var n := |evs| - 1;
      var s, ev := Replay(evs[..n]), evs[n];
      DisciplinedPrefix(EMPTY, evs, n);
      SubmitPrefix(evs, n);
      QueuedJobsAreUntouched(evs[..n]);
      StepAt(EMPTY, evs, n);
      assert evs[..n + 1] == evs && ev in evs;
      var t := Replay(evs);
      forall x | x in t.items
        ensures t.items[x].batchId in t.jobs
        ensures t.jobs[t.items[x].batchId].status == Queued ==> t.items[x].status == Pending && t.items[x].attempts == 0
      {
        if x in s.items {
          RowStep(s, ev, x);
          RowBatch(s, ev, x);
          JobStep(s, ev, s.items[x].batchId);
          if JobStatusAfter(s, s.items[x].batchId, ev) == Queued {
            UntouchedRowStep(s, ev, x);
          }
        } else {
          FreshRow(s, ev, x);
        }
      }
    }
  }

  /** What cancelling a queued batch leaves, in any state: an item ends cancelled
      exactly if it was pending or cancelled, and the batch is complete exactly if
      none of its items was leased. */
  lemma CancelQueuedExactly(s: State, b: BatchId, now: nat)
    requires b in s.jobs && s.jobs[b].status == Queued
    ensures var t := Apply(s, Cancel(b, now));
            && t.items.Keys == s.items.Keys
            && b in t.jobs && t.jobs[b].status == BatchStatus.Cancelled
            && (forall x <- t.items | t.items[x].batchId == b ::
                  t.items[x].status == ItemStatus.Cancelled <==> s.items[x].status in {Pending, ItemStatus.Cancelled})
            && (IsBatchComplete(t, b) <==>
                  forall x <- s.items :: s.items[x].batchId == b ==> s.items[x].status != ItemStatus.Processing)
  {
    var t := Apply(s, Cancel(b, now));
    hide Format;
    CompleteIffTerminal(t, b);
    assert forall x <- s.items :: t.items[x] == DropPending(s.items[x], b);
  }

  lemma CompleteIffTerminal(s: State, b: BatchId)
    ensures IsBatchComplete(s, b) <==>
              forall x <- s.items :: s.items[x].batchId == b ==> s.items[x].status.IsTerminal()
  {
    var open := set i <- s.items | s.items[i].batchId == b
                                   && s.items[i].status !in {Succeeded, ItemStatus.Failed, ItemStatus.Cancelled};
    if open == {} {
      forall x | x in s.items && s.items[x].batchId == b
        ensures s.items[x].status.IsTerminal()
      {
        assert x !in open;
      }
    } else {
      var x :| x in open;
      assert !s.items[x].status.IsTerminal();
    }
  }

  /** Under the discipline, cancelling a batch that is still queued cancels every
      item, none of which was ever attempted, and the batch is complete. */
  lemma CancelQueuedCancelsAll(evs: seq<Event>, b: BatchId, now: nat)
    requires SubmitRun(evs) && DisciplinedFrom(EMPTY, evs)
    requires b in Replay(evs).jobs && Replay(evs).jobs[b].status == Queued
    ensures var t := Apply(Replay(evs), Cancel(b, now));
            && IsBatchComplete(t, b)
            && forall x <- t.items :: t.items[x].batchId == b ==>
                 t.items[x].status == ItemStatus.Cancelled && t.items[x].attempts == 0
  {
    var s := Replay(evs);
    QueuedJobsAreUntouched(evs);
    CancelQueuedExactly(s, b, now);
    hide Apply, IsBatchComplete;
    forall x | x in s.items && s.items[x].batchId == b
      ensures x in Apply(s, Cancel(b, now)).items && Apply(s, Cancel(b, now)).items[x].attempts == 0
    {
      RowUnderCancel(s, Cancel(b, now), x);
    }
    forall x | x in s.items
      ensures x in Apply(s, Cancel(b, now)).items
           && Apply(s, Cancel(b, now)).items[x].batchId == s.items[x].batchId
    {
      RowUnderCancel(s, Cancel(b, now), x);
    }
  }

  // ---- cancelled batches that never complete --------------------------------

  predicate SweepAt(s: State, evs: seq<Event>, k: nat, b: BatchId)
    requires k < |evs|
  {
    Sweeps(ReplayFrom(s, evs[..k]), evs[k], b)
  }

  lemma PendingRowStep(s: State, ev: Event, x: ItemId)
    requires x in s.items && s.items[x].status == Pending && Legal(s, ev) && Disciplined(s, ev)
    requires s.items[x].batchId in s.jobs && !Open(s.jobs[s.items[x].batchId].status)
    ensures RowAfter(s, ev, x).status ==
              if Sweeps(s, ev, s.items[x].batchId) then ItemStatus.Cancelled else Pending
  {
    hide Format;
  }

  /** A pending item of a batch that is cancelling, cancelled or otherwise closed
      stays pending under the discipline, whatever runs, exactly until a cancel
      finds the batch still cancelling. */
  lemma {:induction false} PendingIsFrozen(s: State, evs: seq<Event>, x: ItemId)
    requires LegalFrom(s, evs) && DisciplinedFrom(s, evs)
    requires x in s.items && s.items[x].status == Pending
    requires s.items[x].batchId in s.jobs && !Open(s.jobs[s.items[x].batchId].status)
    ensures x in ReplayFrom(s, evs).items && ReplayFrom(s, evs).items[x].batchId == s.items[x].batchId
    ensures ReplayFrom(s, evs).items[x].status ==
              if exists k :: 0 <= k < |evs| && SweepAt(s, evs, k, s.items[x].batchId)
              then ItemStatus.Cancelled else Pending
    decreases |evs|
  {
    hide Apply, Legal, Disciplined, Sweeps;
    if |evs| > 0 {
      var n := |evs| - 1;
      var b := s.items[x].batchId;
      var t := ReplayFrom(s, evs[..n]);
      DisciplinedPrefix(s, evs, n);
      PendingIsFrozen(s, evs[..n], x);
      StaysClosed(s, evs[..n], b);
      SweepsExtend(s, evs, n, b);
      RowStep(t, evs[n], x);
      RowBatch(t, evs[n], x);
      if t.items[x].status == Pending {
        PendingRowStep(t, evs[n], x);
      } else {
        TerminalRowStep(t, evs[n], x);
      }
    }
  }

  lemma SweepsExtend(s: State, evs: seq<Event>, n: nat, b: BatchId)
    requires |evs| == n + 1
    ensures (exists k :: 0 <= k < |evs| && SweepAt(s, evs, k, b))
        <==> (exists k :: 0 <= k < n && SweepAt(s, evs[..n], k, b)) || Sweeps(ReplayFrom(s, evs[..n]), evs[n], b)
  {
    hide Apply, Sweeps;
    forall k | 0 <= k < n
      ensures SweepAt(s, evs[..n], k, b) <==> SweepAt(s, evs, k, b)
    {
      assert evs[..n][..k] == evs[..k];
    }
    if exists k :: 0 <= k < n && SweepAt(s, evs[..n], k, b) {
      var k :| 0 <= k < n && SweepAt(s, evs[..n], k, b);
      assert SweepAt(s, evs, k, b);
    }
    assert SweepAt(s, evs, n, b) <==> Sweeps(ReplayFrom(s, evs[..n]), evs[n], b);
  }

  /** So a batch cancelled twice while an item is out, whose worker then schedules
      a retry, is never complete again: no continuation makes `is_batch_complete`
      true. */
  lemma CancelledBatchNeverCompletes(s: State, b: BatchId, x: ItemId, retry: Event, now: nat, evs: seq<Event>)
    requires x in s.items && s.items[x].status == ItemStatus.Processing && s.items[x].batchId == b
    requires b in s.jobs && s.jobs[b].status == BatchStatus.Processing && Retries(retry, x)
    requires LegalFrom(Apply(Apply(Apply(s, Cancel(b, now)), Cancel(b, now)), retry), evs)
    requires DisciplinedFrom(Apply(Apply(Apply(s, Cancel(b, now)), Cancel(b, now)), retry), evs)
    ensures !IsBatchComplete(ReplayFrom(Apply(Apply(Apply(s, Cancel(b, now)), Cancel(b, now)), retry), evs), b)
  {
    var c := Cancel(b, now);
    var s1 := Apply(s, c);
    var s2 := Apply(s1, c);
    var s3 := Apply(s2, retry);
    hide Apply, Legal, Disciplined, Format;
    JobUnderCancel(s, c, b);
    RowUnderCancel(s, c, x);
    JobUnderCancel(s1, c, b);
    RowUnderCancel(s1, c, x);
    JobUnderOther(s2, retry, b);
    RowUnderFinish(s2, retry, x);
    PendingIsFrozen(s3, evs, x);
    NoSweepWhenCancelled(s3, evs, b);
    CompleteIffTerminal(ReplayFrom(s3, evs), b);
  }

  lemma {:induction false} TerminalJobStays(s: State, evs: seq<Event>, b: BatchId)
    requires LegalFrom(s, evs) && b in s.jobs && s.jobs[b].status.IsTerminal()
    ensures b in ReplayFrom(s, evs).jobs && ReplayFrom(s, evs).jobs[b].status.IsTerminal()
    decreases |evs|
  {
    hide Apply, Legal;
    if |evs| > 0 {
      var n := |evs| - 1;
      PrefixLegal(s, evs, n);
      StepAt(s, evs, n);
      assert evs[..n + 1] == evs;
      TerminalJobStays(s, evs[..n], b);
      TerminalJobChangesExactly(ReplayFrom(s, evs[..n]), evs[n], b);
    }
  }

  lemma NoSweepWhenCancelled(s: State, evs: seq<Event>, b: BatchId)
    requires LegalFrom(s, evs) && b in s.jobs && s.jobs[b].status.IsTerminal()
    ensures !exists k :: 0 <= k < |evs| && SweepAt(s, evs, k, b)
  {
    hide Apply, Legal;
    forall k | 0 <= k < |evs|
      ensures !SweepAt(s, evs, k, b)
    {
      PrefixLegal(s, evs, k);
      TerminalJobStays(s, evs[..k], b);
    }
  }

  // ---- which cancelled batches can complete ---------------------------------

  ghost predicate NonePending(s: State, b: BatchId) {
    forall x <- s.items :: s.items[x].batchId == b ==> s.items[x].status != Pending
  }

  lemma Extend(s: State, evs: seq<Event>, ev: Event)
    requires LegalFrom(s, evs) && DisciplinedFrom(s, evs)
    requires Legal(ReplayFrom(s, evs), ev) && Disciplined(ReplayFrom(s, evs), ev)
    ensures LegalFrom(s, evs + [ev]) && DisciplinedFrom(s, evs + [ev])
    ensures ReplayFrom(s, evs + [ev]) == Apply(ReplayFrom(s, evs), ev)
  {
    hide Apply, Legal, Disciplined, LegalFrom;
    ExtendLegal(s, evs, ev);
    var all := evs + [ev];
    assert all[..|evs|] == evs;
    forall k | 0 <= k < |all|
      ensures Disciplined(ReplayFrom(s, all[..k]), all[k])
    {
      if k < |evs| {
        assert all[..k] == evs[..k];
      }
    }
  }

  lemma CompleteOne(s: State, b: BatchId, x: ItemId)
    requires NonePending(s, b) && x in ItemsIn(s, b, ItemStatus.Processing)
    ensures var ev := Complete(x, 200, "", s.clock); var t := Apply(s, ev);
            && Legal(s, ev) && Disciplined(s, ev) && NonePending(t, b)
            && ItemsIn(t, b, ItemStatus.Processing) == ItemsIn(s, b, ItemStatus.Processing) - {x}
  {
    hide Format;
  }

  /** Complete every leased item of `b`, one after the other. */
  lemma {:induction false} CompleteAll(s: State, evs: seq<Event>, b: BatchId) returns (all: seq<Event>)
    requires LegalFrom(s, evs) && DisciplinedFrom(s, evs) && NonePending(ReplayFrom(s, evs), b)
    ensures LegalFrom(s, all) && DisciplinedFrom(s, all) && IsBatchComplete(ReplayFrom(s, all), b)
    decreases |ItemsIn(ReplayFrom(s, evs), b, ItemStatus.Processing)|
  {
    hide Apply, Legal, Disciplined, ReplayFrom, LegalFrom, DisciplinedFrom, IsBatchComplete;
    var t := ReplayFrom(s, evs);
    var leased := ItemsIn(t, b, ItemStatus.Processing);
    if leased == {} {
      all := evs;
      CompleteIffTerminal(t, b);
      assert forall x <- t.items :: x !in leased;
    } else {
      var x :| x in leased;
      var ev := Complete(x, 200, "", t.clock);
      CompleteOne(t, b, x);
      Extend(s, evs, ev);
      all := CompleteAll(s, evs + [ev], b);
    }
  }

  /** For a batch whose job is terminal, some disciplined continuation makes it complete
      if and only if none of its items is pending. */
  lemma CompletableExactly(s: State, b: BatchId)
    requires b in s.jobs && s.jobs[b].status.IsTerminal()
    ensures (exists evs :: LegalFrom(s, evs) && DisciplinedFrom(s, evs) && IsBatchComplete(ReplayFrom(s, evs), b))
        <==> NonePending(s, b)
  {
    hide Apply, Legal, Disciplined, IsBatchComplete;
    if NonePending(s, b) {
      assert LegalFrom(s, []) && DisciplinedFrom(s, []) && ReplayFrom(s, []) == s;
      var all := CompleteAll(s, [], b);
    } else {
      var x :| x in s.items && s.items[x].batchId == b && s.items[x].status == Pending;
      forall evs | LegalFrom(s, evs) && DisciplinedFrom(s, evs)
        ensures !IsBatchComplete(ReplayFrom(s, evs), b)
      {
        PendingIsFrozen(s, evs, x);
        NoSweepWhenCancelled(s, evs, b);
        CompleteIffTerminal(ReplayFrom(s, evs), b);
      }
    }
  }
}
