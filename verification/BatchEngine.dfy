/** What the engine puts into the queue (batch_engine/src/engine.rs). */
module BatchEngine {
  import opened Text
  import opened Timestamp
  import opened BatchTypes
  import opened BatchQueue
  import opened BatchLeases
  import opened SqliteQueueModel

  datatype SubmissionItem = SubmissionItem(customId: string, request: string)

  /** `None` when the referenced file does not exist, else whether the queue took it. */
  type Outcome = Option<bool>

  /** What one submission leaves: a queued job and one pending item for each submitted
      item, stored together or not at all. */
  ghost predicate Leaves(
    before: State, after: State, ok: bool, id: BatchId, ids: seq<ItemId>, items: seq<SubmissionItem>,
    mode: ExecutionMode, priority: nat, epoch: nat)
    requires |ids| == |items|
  {
    && after.dead == before.dead
    && (!ok ==> after.jobs == before.jobs && after.items == before.items)
    && (ok ==>
      && after.jobs == before.jobs[id := Job(Queued, mode, priority, Counts(|items| % 0x1_0000_0000, 0, 0, 0, 0, 0),
                                             Format(epoch), None, None, FormatPlusHours(epoch, 24))]
      && AddsRows(before.items, after.items, id, ids, items, Format(epoch)))
  }

  /** `submit`, up to its webhook: `id` and `ids` are the ids it draws. */
  method Submit(
    queue: SqliteQueue, fileExists: bool, id: BatchId, ids: seq<ItemId>, items: seq<SubmissionItem>,
    mode: ExecutionMode, priority: nat, epoch: nat)
    returns (r: Outcome)
    requires queue.Valid() && |ids| == |items|
    modifies queue
    ensures queue.Valid() && (r == None <==> !fileExists)
    ensures Leaves(old(queue.Db()), queue.Db(), r == Some(true), id, ids, items, mode, priority, epoch)
    ensures !fileExists ==> queue.log == old(queue.log)
    ensures fileExists ==>
              && |queue.log| == |old(queue.log)| + 1 && old(queue.log) <= queue.log
              && (|items| < 0x1_0000_0000 ==> IsSubmission(queue.log[|old(queue.log)|]))
  {
    if !fileExists {
      return None;
    }
    var ok := Store(queue, id, ids, items, mode, priority, epoch);
    r := Some(ok);
  }

  ghost predicate IsSubmission(ev: Event) {
    ev.Enqueue? && Submitted(ev)
  }

  method Store(
    queue: SqliteQueue, id: BatchId, ids: seq<ItemId>, items: seq<SubmissionItem>,
    mode: ExecutionMode, priority: nat, epoch: nat)
    returns (ok: bool)
    requires queue.Valid() && |ids| == |items|
    modifies queue
    ensures queue.Valid()
    ensures Leaves(old(queue.Db()), queue.Db(), ok, id, ids, items, mode, priority, epoch)
    ensures |queue.log| == |old(queue.log)| + 1 && old(queue.log) <= queue.log
    ensures |items| < 0x1_0000_0000 ==> IsSubmission(queue.log[|old(queue.log)|])
  {
    hide Format, FormatPlusHours, NewItems, Insertable, Submitted, Apply, LegalFrom, ReplayFrom, AddsRows;
    var now := Format(epoch);
    var job := NewJob(id, Queued, mode, priority, |items| % 0x1_0000_0000, now, FormatPlusHours(epoch, 24));
    var news := NewItems(id, ids, items, now);
    NewItemsFacts(id, ids, items, now);
    EnqueueIsSubmitted(job, news);
    ghost var before := queue.items;
    ok := queue.Enqueue(job, news);
    if ok {
      RowsAdded(before, queue.items, id, ids, items, now);
    }
  }

  /** The rows there were, and one for each submitted item: pending, no attempt, three
      retries. */
  ghost predicate AddsRows(
    before: map<ItemId, Item>, after: map<ItemId, Item>, id: BatchId, ids: seq<ItemId>, items: seq<SubmissionItem>, now: string)
    requires |ids| == |items|
  {
    && after.Keys == before.Keys + (set k | 0 <= k < |ids| :: ids[k])
    && (forall x <- before :: after[x] == before[x])
    && forall k :: 0 <= k < |items| ==>
         after[ids[k]] == Item(id, items[k].customId, Pending, items[k].request, None, None, 0, 3,
                               None, None, None, None, now, None)
  }

  lemma RowsAdded(
    before: map<ItemId, Item>, after: map<ItemId, Item>, id: BatchId, ids: seq<ItemId>, items: seq<SubmissionItem>, now: string)
    requires |ids| == |items|
    requires var news := NewItems(id, ids, items, now);
             && after.Keys == before.Keys + (set n <- news :: n.id)
             && (forall x <- before :: after[x] == before[x])
             && (forall n <- news ::
                   after[n.id] == Item(n.batchId, n.customId, n.status, n.request, None, None, 0, n.maxRetries,
                                       None, None, None, None, n.createdAt, None))
    ensures AddsRows(before, after, id, ids, items, now)
  {
    NewItemsFacts(id, ids, items, now);
    hide NewItems;
  }

  function NewItems(id: BatchId, ids: seq<ItemId>, items: seq<SubmissionItem>, now: string): (news: seq<NewItem>)
    requires |ids| == |items|
    ensures |news| == |items|
  {
    seq(|items|, k requires 0 <= k < |items| => NewItem(ids[k], id, items[k].customId, Pending, items[k].request, 3, now))
  }

  lemma NewItemsFacts(id: BatchId, ids: seq<ItemId>, items: seq<SubmissionItem>, now: string)
    requires |ids| == |items|
    ensures var news := NewItems(id, ids, items, now);
            && (forall n <- news :: n.status == Pending && n.batchId == id)
            && (set n <- news :: n.id) == (set k | 0 <= k < |ids| :: ids[k])
            && forall k :: 0 <= k < |items| ==>
                 news[k] in news && news[k] == NewItem(ids[k], id, items[k].customId, Pending, items[k].request, 3, now)
  {
    var news := NewItems(id, ids, items, now);
    assert forall k :: 0 <= k < |ids| ==> news[k] in news && news[k].id == ids[k];
  }

  lemma EnqueueIsSubmitted(job: NewJob, news: seq<NewItem>)
    requires job.status == Queued && forall n <- news :: n.status == Pending && n.batchId == job.id
    ensures job.total == |news| ==> Submitted(Enqueue(job, news))
  {
  }
}
