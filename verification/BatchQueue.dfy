/** The batch job queue as a state machine. Every method of
    batch_engine/src/queue/sqlite.rs takes the connection mutex once, so each is
    one atomic step; a run is any interleaving of steps. */
module BatchQueue {
  import opened Text
  import opened Timestamp
  import opened BatchTypes

  const LEASE_SECS: nat := 120

  /** The three tables, and the latest time read from the clock under the mutex. */
  datatype State = State(
    jobs: map<BatchId, Job>,
    items: map<ItemId, Item>,
    dead: map<ItemId, DeadLetter>,
    clock: nat)

  const EMPTY := State(map[], map[], map[], 0)

  /** One call. `claim_next_item` reads the clock twice; `schedule_retry` reads it
      before taking the mutex, so `readAt` may be older than earlier steps. */
  datatype Event =
    | Enqueue(job: NewJob, news: seq<NewItem>)
    | Claim(picked: Option<ItemId>, lease: LeaseId, now: nat, stamp: nat)
    | Complete(item: ItemId, code: nat, body: string, now: nat)
    | Fail(item: ItemId, error: string, now: nat)
    | ScheduleRetry(item: ItemId, readAt: nat, delay: nat, error: string)
    | MoveToDeadLetter(item: ItemId, now: nat)
    | Cancel(batch: BatchId, now: nat)
    | CompleteBatch(batch: BatchId, now: nat)
    | UpdateProgress(batch: BatchId, counts: Counts)
    | Reclaim(now: nat)

  // ---- enqueue --------------------------------------------------------------

  function JobRow(n: NewJob): Job {
    Job(n.status, n.mode, n.priority, Counts(n.total, 0, 0, 0, 0, 0), n.createdAt, None, None, n.expiresAt)
  }

  function ItemRow(n: NewItem): Item {
    Item(n.batchId, n.customId, n.status, n.request, None, None, 0, n.maxRetries, None, None, None, None,
         n.createdAt, None)
  }

  /** PRIMARY KEY, UNIQUE(batch_id, custom_id) and the foreign key on batch_id. */
  predicate MayInsert(jobs: map<BatchId, Job>, items: map<ItemId, Item>, n: NewItem) {
    && n.id !in items
    && n.batchId in jobs
    && forall i <- items :: !(items[i].batchId == n.batchId && items[i].customId == n.customId)
  }

  /** The items table after inserting `news` in order, or `None` on a violation. */
  function InsertAll(jobs: map<BatchId, Job>, items: map<ItemId, Item>, news: seq<NewItem>): Option<map<ItemId, Item>> {
    if |news| == 0 then Some(items)
    else match InsertAll(jobs, items, news[..|news| - 1])
      case None => None
      case Some(sofar) =>
        var n := news[|news| - 1];
        if MayInsert(jobs, sofar, n) then Some(sofar[n.id := ItemRow(n)]) else None
  }

  /** All of the rows or, when a constraint fails, none of them. */
  function AfterEnqueue(s: State, job: NewJob, news: seq<NewItem>): State {
    if job.id in s.jobs then s
    else
      var jobs := s.jobs[job.id := JobRow(job)];
      match InsertAll(jobs, s.items, news)
      case None => s
      case Some(items) => s.(jobs := jobs, items := items)
  }

  predicate EnqueueSucceeds(s: State, job: NewJob, news: seq<NewItem>) {
    job.id !in s.jobs && InsertAll(s.jobs[job.id := JobRow(job)], s.items, news).Some?
  }

  // ---- claim ----------------------------------------------------------------

  predicate Open(st: BatchStatus) {
    st == Queued || st == BatchStatus.Processing
  }

  predicate RetryDue(i: Item, now: nat) {
    i.nextRetryAt == None || LessEq(i.nextRetryAt.value, Format(now))
  }

  predicate Claimable(s: State, id: ItemId, now: nat) {
    && id in s.items
    && s.items[id].status == Pending
    && RetryDue(s.items[id], now)
    && s.items[id].batchId in s.jobs
    && Open(s.jobs[s.items[id].batchId].status)
    && s.jobs[s.items[id].batchId].mode == ProxyNative
  }

  /** ORDER BY priority DESC, created_at ASC: `a` may come before `b`. */
  predicate Precedes(s: State, a: ItemId, b: ItemId)
    requires a in s.items && s.items[a].batchId in s.jobs
    requires b in s.items && s.items[b].batchId in s.jobs
  {
    var p, q := s.jobs[s.items[a].batchId].priority, s.jobs[s.items[b].batchId].priority;
    p > q || (p == q && LessEq(s.items[a].createdAt, s.items[b].createdAt))
  }

  predicate MayPick(s: State, id: ItemId, now: nat) {
    && Claimable(s, id, now)
    && forall other <- s.items :: Claimable(s, other, now) ==> Precedes(s, id, other)
  }

  function AfterClaim(s: State, id: ItemId, lease: LeaseId, now: nat, stamp: nat): State {
    if !Claimable(s, id, now) then s else
    var i := s.items[id];
    var j := s.jobs[i.batchId];
    s.(items := s.items[id := i.(status := ItemStatus.Processing, leaseId := Some(lease),
                                 leaseExpiresAt := Some(Format(WrappingAdd(stamp, LEASE_SECS))),
                                 attempts := i.attempts + 1)],
       jobs := if j.status == Queued
               then s.jobs[i.batchId := j.(status := BatchStatus.Processing, startedAt := Some(Format(now)))]
               else s.jobs)
  }

  // ---- finishing an item ----------------------------------------------------

  function SucceededRow(i: Item, code: nat, body: string, now: nat): Item {
    i.(status := Succeeded, resultStatus := Some(code), resultBody := Some(body),
       leaseId := None, leaseExpiresAt := None, completedAt := Some(Format(now)))
  }

  function FailedRow(i: Item, error: string, now: nat): Item {
    i.(status := ItemStatus.Failed, lastError := Some(error), leaseId := None, leaseExpiresAt := None,
       completedAt := Some(Format(now)))
  }

  function RetriedRow(i: Item, retryAt: string, error: string): Item {
    i.(status := Pending, lastError := Some(error), nextRetryAt := Some(retryAt),
       leaseId := None, leaseExpiresAt := None)
  }

  function WithItem(s: State, id: ItemId, i: Item): State {
    if id in s.items then s.(items := s.items[id := i]) else s
  }

  // ---- whole-table updates --------------------------------------------------

  predicate LeaseExpired(i: Item, now: nat) {
    && i.status == ItemStatus.Processing
    && i.leaseId.Some?
    && i.leaseExpiresAt.Some?
    && Less(i.leaseExpiresAt.value, Format(now))
  }

  function Reclaimed(i: Item, now: nat): Item {
    if LeaseExpired(i, now) then i.(status := Pending, leaseId := None, leaseExpiresAt := None) else i
  }

  function DropPending(i: Item, b: BatchId): Item {
    if i.batchId == b && i.status == Pending then i.(status := ItemStatus.Cancelled) else i
  }

  function CancelTarget(st: BatchStatus): BatchStatus {
    if st == Queued then BatchStatus.Cancelled
    else if st == BatchStatus.Processing then Cancelling
    else if st.IsTerminal() then st
    else BatchStatus.Cancelled
  }

  function AfterCancel(s: State, b: BatchId, now: nat): State {
    if b !in s.jobs || s.jobs[b].status.IsTerminal() then s
    else
      var j := s.jobs[b];
      var target := CancelTarget(j.status);
      s.(jobs := s.jobs[b := j.(status := target,
                                completedAt := if target == BatchStatus.Cancelled then Some(Format(now)) else j.completedAt)],
         items := if target == BatchStatus.Cancelled then map i <- s.items :: DropPending(s.items[i], b) else s.items)
  }

  function ItemsOf(s: State, b: BatchId): set<ItemId> {
    set i <- s.items | s.items[i].batchId == b
  }

  function ItemsIn(s: State, b: BatchId, st: ItemStatus): set<ItemId> {
    set i <- s.items | s.items[i].batchId == b && s.items[i].status == st
  }

  function AfterCompleteBatch(s: State, b: BatchId, now: nat): State {
    if b !in s.jobs then s
    else
      var j := s.jobs[b];
      s.(jobs := s.jobs[b := j.(status := Completed, completedAt := Some(Format(now)),
                                counts := j.counts.(processing := 0,
                                                    succeeded := |ItemsIn(s, b, Succeeded)|,
                                                    failed := |ItemsIn(s, b, ItemStatus.Failed)|,
                                                    cancelled := |ItemsIn(s, b, ItemStatus.Cancelled)|))])
  }

  /** `is_batch_complete`: no item outside the three final statuses. */
  predicate IsBatchComplete(s: State, b: BatchId) {
    |set i <- s.items | s.items[i].batchId == b && s.items[i].status !in {Succeeded, ItemStatus.Failed, ItemStatus.Cancelled}| == 0
  }

  function AfterDeadLetter(s: State, id: ItemId, now: nat): State {
    if id !in s.items || id in s.dead then s
    else
      var i := s.items[id];
      s.(dead := s.dead[id := DeadLetter(i.batchId, i.customId, i.request, i.lastError, i.attempts, Format(now))])
  }

  // ---- steps ----------------------------------------------------------------

  /** First clock read under the mutex, if the call makes one. */
  function FirstRead(ev: Event): Option<nat> {
    match ev
    case Enqueue(_, _) => None
    case ScheduleRetry(_, _, _, _) => None
    case UpdateProgress(_, _) => None
    case _ => Some(ev.now)
  }

  function ClockAfter(clock: nat, ev: Event): nat {
    if ev.Claim? then ev.stamp else if FirstRead(ev).Some? then ev.now else clock
  }

  /** What the database and a clock that never goes back allow in state `s`. */
  predicate Legal(s: State, ev: Event) {
    && (FirstRead(ev).Some? ==> s.clock <= ev.now)
    && (ev.Claim? ==>
      && ev.now <= ev.stamp
      && match ev.picked
         case Some(id) => MayPick(s, id, ev.now)
         case None => forall id <- s.items :: !Claimable(s, id, ev.now))
  }

  function Effect(s: State, ev: Event): State {
    match ev
    case Enqueue(job, news) => AfterEnqueue(s, job, news)
    case Claim(None, _, _, _) => s
    case Claim(Some(id), lease, now, stamp) => AfterClaim(s, id, lease, now, stamp)
    case Complete(id, code, body, now) =>
      if id in s.items then WithItem(s, id, SucceededRow(s.items[id], code, body, now)) else s
    case Fail(id, error, now) =>
      if id in s.items then WithItem(s, id, FailedRow(s.items[id], error, now)) else s
    case ScheduleRetry(id, readAt, delay, error) =>
      if id in s.items then WithItem(s, id, RetriedRow(s.items[id], Format(WrappingAdd(readAt, delay)), error)) else s
    case MoveToDeadLetter(id, now) => AfterDeadLetter(s, id, now)
    case Cancel(b, now) => AfterCancel(s, b, now)
    case CompleteBatch(b, now) => AfterCompleteBatch(s, b, now)
    case UpdateProgress(b, c) =>
      if b in s.jobs then s.(jobs := s.jobs[b := s.jobs[b].(counts := c.(total := s.jobs[b].counts.total))]) else s
    case Reclaim(now) => s.(items := map i <- s.items :: Reclaimed(s.items[i], now))
  }

  function Apply(s: State, ev: Event): State {
    Effect(s, ev).(clock := ClockAfter(s.clock, ev))
  }

  // ---- runs -----------------------------------------------------------------

  /** The state after the calls `evs`, made in this order from `s`. */
  function ReplayFrom(s: State, evs: seq<Event>): State {
    if |evs| == 0 then s
    else Apply(ReplayFrom(s, evs[..|evs| - 1]), evs[|evs| - 1])
  }

  ghost predicate LegalFrom(s: State, evs: seq<Event>) {
    forall k :: 0 <= k < |evs| ==> Legal(ReplayFrom(s, evs[..k]), evs[k])
  }

  /** A run starts from empty tables. */
  function Replay(evs: seq<Event>): State {
    ReplayFrom(EMPTY, evs)
  }

  ghost predicate LegalRun(evs: seq<Event>) {
    LegalFrom(EMPTY, evs)
  }

  lemma PrefixLegal(s: State, evs: seq<Event>, k: nat)
    requires LegalFrom(s, evs) && k <= |evs|
    ensures LegalFrom(s, evs[..k])
  {
    hide Apply, Legal;
    forall j | 0 <= j < k
      ensures Legal(ReplayFrom(s, evs[..k][..j]), evs[..k][j])
    {
      assert evs[..k][..j] == evs[..j];
    }
  }

  lemma StepAt(s: State, evs: seq<Event>, k: nat)
    requires k < |evs|
    ensures ReplayFrom(s, evs[..k + 1]) == Apply(ReplayFrom(s, evs[..k]), evs[k])
    ensures LegalFrom(s, evs) ==> Legal(ReplayFrom(s, evs[..k]), evs[k])
  {
    hide Apply, Legal;
    assert evs[..k + 1][..k] == evs[..k];
  }

  lemma ExtendLegal(s: State, evs: seq<Event>, ev: Event)
    requires LegalFrom(s, evs) && Legal(ReplayFrom(s, evs), ev)
    ensures LegalFrom(s, evs + [ev]) && ReplayFrom(s, evs + [ev]) == Apply(ReplayFrom(s, evs), ev)
  {
    hide Apply, Legal;
    var all := evs + [ev];
    assert all[..|evs|] == evs;
    forall k | 0 <= k < |all|
      ensures Legal(ReplayFrom(s, all[..k]), all[k])
    {
      if k < |evs| {
        assert all[..k] == evs[..k];
      }
    }
  }

  lemma AppendLegal(evs: seq<Event>, ev: Event)
    requires LegalRun(evs) && Legal(Replay(evs), ev)
    ensures LegalRun(evs + [ev]) && Replay(evs + [ev]) == Apply(Replay(evs), ev)
  {
    hide Apply, Legal;
    ExtendLegal(EMPTY, evs, ev);
  }
}
