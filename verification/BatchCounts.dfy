/** Conservation in the batch queue: how many items a batch has, and what the
    counters of a completed batch add up to. Also what a dead letter changes. */
module BatchCounts {
  import opened Text
  import opened Timestamp
  import opened BatchTypes
  import opened BatchQueue
  import opened BatchRows
  import opened BatchLeases
  import opened BatchCancel

  function RowsOf(items: map<ItemId, Item>, b: BatchId): set<ItemId> {
    set i <- items | items[i].batchId == b
  }

  lemma OneMoreRow(items: map<ItemId, Item>, n: NewItem, c: BatchId)
    requires n.id !in items
    ensures |RowsOf(items[n.id := ItemRow(n)], c)| == |RowsOf(items, c)| + if c == n.batchId then 1 else 0
  {
    var after := items[n.id := ItemRow(n)];
    assert RowsOf(after, c) == RowsOf(items, c) + if c == n.batchId then {n.id} else {};
  }

  /** Inserting a submission adds one row for each item, all to its own batch. */
  lemma {:induction false} InsertAllCounts(jobs: map<BatchId, Job>, items: map<ItemId, Item>, news: seq<NewItem>, b: BatchId, c: BatchId)
    requires InsertAll(jobs, items, news).Some?
    requires forall n <- news :: n.batchId == b
    ensures |RowsOf(InsertAll(jobs, items, news).value, c)| == |RowsOf(items, c)| + if c == b then |news| else 0
  {
    hide RowsOf;
    if |news| > 0 {
      var k := |news| - 1;
      assert news[k] in news;
      InsertAllCounts(jobs, items, news[..k], b, c);
      OneMoreRow(InsertAll(jobs, items, news[..k]).value, news[k], c);
    }
  }

  ghost predicate Accounted(s: State) {
    && (forall x <- s.items :: s.items[x].batchId in s.jobs)
    && (forall b <- s.jobs :: |ItemsOf(s, b)| == s.jobs[b].counts.total)
  }

  lemma SameRows(s: State, ev: Event, b: BatchId)
    requires Legal(s, ev) && !(ev.Enqueue? && EnqueueSucceeds(s, ev.job, ev.news))
    ensures ItemsOf(Apply(s, ev), b) == ItemsOf(s, b)
  {
    hide Apply, Legal, EnqueueSucceeds;
    var t := Apply(s, ev);
    forall x
      ensures x in ItemsOf(t, b) <==> x in ItemsOf(s, b)
    {
      if x in s.items {
        RowBatch(s, ev, x);
      } else if x in t.items {
        RowAppears(s, ev, x);
      }
    }
  }

  lemma AccountedEnqueue(s: State, ev: Event)
    requires Accounted(s) && Submitted(ev) && ev.Enqueue? && EnqueueSucceeds(s, ev.job, ev.news)
    ensures Accounted(Apply(s, ev))
  {
    hide Format, MayPick, MayInsert;
    var t := Apply(s, ev);
    var jobs := s.jobs[ev.job.id := JobRow(ev.job)];
    assert t.jobs == jobs && t.items == InsertAll(jobs, s.items, ev.news).value;
    assert RowsOf(s.items, ev.job.id) == {};
    forall b | b in t.jobs
      ensures |ItemsOf(t, b)| == t.jobs[b].counts.total
    {
      InsertAllCounts(jobs, s.items, ev.news, ev.job.id, b);
      assert ItemsOf(t, b) == RowsOf(t.items, b) && ItemsOf(s, b) == RowsOf(s.items, b);
    }
    forall x | x in t.items
      ensures t.items[x].batchId in t.jobs
    {
      if x in s.items {
        InsertAllKeeps(jobs, s.items, ev.news, x);
      } else {
        InsertAllAdds(jobs, s.items, ev.news, x);
      }
    }
  }

  lemma AccountedStep(s: State, ev: Event)
    requires Accounted(s) && Legal(s, ev) && Submitted(ev)
    ensures Accounted(Apply(s, ev))
  {
    hide Apply, Legal, ItemsOf, EnqueueSucceeds;
    if ev.Enqueue? && EnqueueSucceeds(s, ev.job, ev.news) {
      AccountedEnqueue(s, ev);
    } else {
      var t := Apply(s, ev);
      forall x | x in t.items
        ensures t.items[x].batchId in t.jobs
      {
        if x in s.items {
          RowBatch(s, ev, x);
          JobStep(s, ev, s.items[x].batchId);
        } else {
          RowAppears(s, ev, x);
        }
      }
      forall b | b in t.jobs
        ensures |ItemsOf(t, b)| == t.jobs[b].counts.total
      {
        SameRows(s, ev, b);
        if b in s.jobs {
          JobStep(s, ev, b);
        } else {
          JobAppears(s, ev, b);
        }
      }
    }
  }

  /** In every run of submissions and queue calls a batch has exactly `total` items. */
  lemma {:induction false} ItemsAreConserved(evs: seq<Event>)
    requires SubmitRun(evs)
    ensures Accounted(Replay(evs))
    decreases |evs|
  {
    hide Apply, Legal;
    if |evs| > 0 {
      var n := |evs| - 1;
      SubmitPrefix(evs, n);
      ItemsAreConserved(evs[..n]);
      StepAt(EMPTY, evs, n);
      assert evs[..n + 1] == evs && evs[n] in evs;
      AccountedStep(Replay(evs[..n]), evs[n]);
    }
  }

  function ItemsInAny(s: State, b: BatchId, sts: set<ItemStatus>): set<ItemId> {
    set i <- s.items | s.items[i].batchId == b && s.items[i].status in sts
  }

  lemma OneMoreStatus(s: State, b: BatchId, sts: set<ItemStatus>, st: ItemStatus)
    requires st !in sts
    ensures |ItemsInAny(s, b, sts + {st})| == |ItemsInAny(s, b, sts)| + |ItemsIn(s, b, st)|
  {
    assert ItemsInAny(s, b, sts + {st}) == ItemsInAny(s, b, sts) + ItemsIn(s, b, st);
    assert ItemsInAny(s, b, sts) !! ItemsIn(s, b, st);
  }

  /** The five statuses partition a batch. */
  lemma StatusesPartition(s: State, b: BatchId)
    ensures |ItemsOf(s, b)| == |ItemsIn(s, b, Pending)| + |ItemsIn(s, b, ItemStatus.Processing)|
                             + |ItemsIn(s, b, Succeeded)| + |ItemsIn(s, b, ItemStatus.Failed)|
                             + |ItemsIn(s, b, ItemStatus.Cancelled)|
  {
    var p, q, u, f, c := Pending, ItemStatus.Processing, Succeeded, ItemStatus.Failed, ItemStatus.Cancelled;
    assert ItemsInAny(s, b, {}) == {};
    var all := {} + {p} + {q} + {u} + {f} + {c};
    forall i | i in s.items
      ensures s.items[i].status in all
    {
      var st := s.items[i].status;
      assert st == p || st == q || st == u || st == f || st == c;
    }
    assert ItemsInAny(s, b, all) == ItemsOf(s, b);
    hide ItemsInAny, ItemsIn, ItemsOf;
    OneMoreStatus(s, b, {}, p);
    OneMoreStatus(s, b, {} + {p}, q);
    OneMoreStatus(s, b, {} + {p} + {q}, u);
    OneMoreStatus(s, b, {} + {p} + {q} + {u}, f);
    OneMoreStatus(s, b, {} + {p} + {q} + {u} + {f}, c);
  }

  lemma CompleteIffNoneOpen(s: State, b: BatchId)
    ensures IsBatchComplete(s, b) <==> |ItemsIn(s, b, Pending)| + |ItemsIn(s, b, ItemStatus.Processing)| == 0
  {
    CompleteIffTerminal(s, b);
    var p, q := ItemsIn(s, b, Pending), ItemsIn(s, b, ItemStatus.Processing);
    if |p| + |q| == 0 {
      assert p == {} && q == {};
      forall x | x in s.items && s.items[x].batchId == b
        ensures s.items[x].status.IsTerminal()
      {
        assert x !in p && x !in q;
      }
    } else {
      var x :| x in p + q;
    }
  }

  /** The counters `complete_batch` records, in any reachable state: they add up to
      `total` if and only if `is_batch_complete` held, and nothing else of the job's
      counts moves. */
  lemma CompletedCountsAddUp(evs: seq<Event>, b: BatchId, now: nat)
    requires SubmitRun(evs) && b in Replay(evs).jobs
    ensures var t := Apply(Replay(evs), CompleteBatch(b, now));
            && b in t.jobs && t.jobs[b].status == Completed
            && var c := t.jobs[b].counts;
            && c.processing == 0 && c.total == |ItemsOf(t, b)|
            && (c.succeeded + c.failed + c.cancelled == c.total <==> IsBatchComplete(Replay(evs), b))
  {
    var s := Replay(evs);
    ItemsAreConserved(evs);
    StatusesPartition(s, b);
    CompleteIffNoneOpen(s, b);
    CompleteBatchWrites(s, b, now);
  }

  lemma CompleteBatchWrites(s: State, b: BatchId, now: nat)
    requires b in s.jobs
    ensures var t := Apply(s, CompleteBatch(b, now));
            && t.items == s.items && ItemsOf(t, b) == ItemsOf(s, b)
            && b in t.jobs && t.jobs[b].status == Completed
            && t.jobs[b].counts == s.jobs[b].counts.(
                 processing := 0, succeeded := |ItemsIn(s, b, Succeeded)|,
                 failed := |ItemsIn(s, b, ItemStatus.Failed)|, cancelled := |ItemsIn(s, b, ItemStatus.Cancelled)|)
  {
    hide Format;
  }

  // ---- dead letters ---------------------------------------------------------

  function WithoutDeadLetters(evs: seq<Event>): seq<Event> {
    if |evs| == 0 then []
    else
      var init := WithoutDeadLetters(evs[..|evs| - 1]);
      if evs[|evs| - 1].MoveToDeadLetter? then init else init + [evs[|evs| - 1]]
  }

  /** Same tables but for dead letters and the clock. */
  predicate SameQueue(s: State, t: State) {
    s.jobs == t.jobs && s.items == t.items && s.clock <= t.clock
  }

  lemma SameQueueLegal(s: State, t: State, ev: Event)
    requires SameQueue(s, t) && Legal(t, ev)
    ensures Legal(s, ev)
  {
    hide Format, LessEq;
    if ev.Claim? {
      assert forall x, now :: Claimable(s, x, now) <==> Claimable(t, x, now);
      if ev.picked.Some? {
        assert forall a, b | a in s.items && s.items[a].batchId in s.jobs && b in s.items && s.items[b].batchId in s.jobs ::
            Precedes(s, a, b) <==> Precedes(t, a, b);
      }
    }
  }

  lemma SameQueueStep(s: State, t: State, ev: Event)
    requires SameQueue(s, t) && Legal(t, ev) && !ev.MoveToDeadLetter?
    ensures SameQueue(Apply(s, ev), Apply(t, ev))
  {
    hide Format, MayPick, LessEq;
    SameQueueEffect(s, t, ev);
  }

  lemma SameQueueEffect(s: State, t: State, ev: Event)
    requires SameQueue(s, t) && !ev.MoveToDeadLetter?
    ensures Effect(s, ev).jobs == Effect(t, ev).jobs && Effect(s, ev).items == Effect(t, ev).items
  {
    hide Format, MayPick, LessEq;
    if ev.Claim? && ev.picked.Some? {
      assert Claimable(s, ev.picked.value, ev.now) <==> Claimable(t, ev.picked.value, ev.now);
    }
    if ev.CompleteBatch? {
      assert forall st :: ItemsIn(s, ev.batch, st) == ItemsIn(t, ev.batch, st);
    }
  }

  /** `dead_letter` only copies the row: erasing every such call from a run leaves
      a run with the same jobs and items. A dead-lettered item therefore keeps its
      lease, expires, and is claimed again like any other. */
  lemma {:induction false} DeadLettersChangeNothing(evs: seq<Event>)
    requires LegalRun(evs)
    ensures LegalRun(WithoutDeadLetters(evs))
    ensures SameQueue(Replay(WithoutDeadLetters(evs)), Replay(evs))
    decreases |evs|
  {
    hide Apply, Legal, SameQueue;
    if |evs| == 0 {
      SameQueueEmpty();
    } else {
      var n := |evs| - 1;
      var e, init := evs[n], WithoutDeadLetters(evs[..n]);
      PrefixLegal(EMPTY, evs, n);
      StepAt(EMPTY, evs, n);
      assert evs[..n + 1] == evs;
      DeadLettersChangeNothing(evs[..n]);
      if e.MoveToDeadLetter? {
        DeadLetterKeepsQueue(Replay(init), Replay(evs[..n]), e);
      } else {
        SameQueueLegal(Replay(init), Replay(evs[..n]), e);
        SameQueueStep(Replay(init), Replay(evs[..n]), e);
        AppendLegal(init, e);
      }
    }
  }

  lemma SameQueueEmpty()
    ensures SameQueue(EMPTY, EMPTY)
  {
  }

  lemma DeadLetterKeepsQueue(s: State, t: State, ev: Event)
    requires SameQueue(s, t) && ev.MoveToDeadLetter? && Legal(t, ev)
    ensures SameQueue(s, Apply(t, ev))
  {
  }
}
