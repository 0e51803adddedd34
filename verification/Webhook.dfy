/** The webhook delivery queue (webhook/sqlite.rs) and the dispatcher's decision
    after each attempt (webhook/dispatcher.rs). */
module Webhook {
  import opened Arith
  import opened Text
  import opened Timestamp

  const LEASE_SECS: nat := 60

  type DeliveryId = string

  datatype Status = Pending | Processing | Delivered | DeadLettered {
    predicate Final() {
      Delivered? || DeadLettered?
    }
  }

  datatype Row = Row(
    status: Status,
    attempts: nat,
    maxRetries: nat,
    nextRetryAt: Option<string>,
    leaseId: Option<string>,
    leaseExpiresAt: Option<string>,
    createdAt: string,
    deliveredAt: Option<string>)

  datatype State = State(rows: map<DeliveryId, Row>, clock: nat)

  const EMPTY := State(map[], 0)

  /** Calls on the queue; `attempts` and `maxRetries` are u8. */
  datatype Event =
    | Enqueue(id: DeliveryId, attempts: nat, maxRetries: nat, now: nat)
    | ClaimNext(picked: Option<DeliveryId>, lease: string, now: nat, stamp: nat)
    | Ack(id: DeliveryId, now: nat)
    | ScheduleRetry(id: DeliveryId, readAt: nat, delay: nat)
    | MoveToDeadLetter(id: DeliveryId)
    | Reclaim(now: nat)

  function AsU8(n: nat): nat {
    n % 256
  }

  // ---- the queue ------------------------------------------------------------

  predicate Claimable(s: State, id: DeliveryId, now: nat) {
    && id in s.rows && s.rows[id].status == Pending
    && (s.rows[id].nextRetryAt == None || LessEq(s.rows[id].nextRetryAt.value, Format(now)))
  }

  predicate MayPick(s: State, id: DeliveryId, now: nat) {
    && Claimable(s, id, now)
    && forall other <- s.rows :: Claimable(s, other, now) ==> LessEq(s.rows[id].createdAt, s.rows[other].createdAt)
  }

  predicate LeaseExpired(r: Row, now: nat) {
    && r.status == Processing && r.leaseId.Some? && r.leaseExpiresAt.Some?
    && Less(r.leaseExpiresAt.value, Format(now))
  }

  function NewRow(attempts: nat, maxRetries: nat, now: nat): Row {
    Row(Pending, attempts, maxRetries, None, None, None, Format(now), None)
  }

  function ClaimedRow(r: Row, lease: string, stamp: nat): Row {
    r.(status := Processing, leaseId := Some(lease),
       leaseExpiresAt := Some(Format(WrappingAdd(stamp, LEASE_SECS))), attempts := r.attempts + 1)
  }

  function AckedRow(r: Row, now: nat): Row {
    r.(status := Delivered, deliveredAt := Some(Format(now)), leaseId := None, leaseExpiresAt := None)
  }

  function RetriedRow(r: Row, readAt: nat, delay: nat): Row {
    r.(status := Pending, nextRetryAt := Some(Format(WrappingAdd(readAt, delay))),
       leaseId := None, leaseExpiresAt := None)
  }

  function DeadRow(r: Row): Row {
    r.(status := DeadLettered, leaseId := None, leaseExpiresAt := None)
  }

  function ReclaimedRow(r: Row, now: nat): Row {
    if LeaseExpired(r, now) then r.(status := Pending, leaseId := None, leaseExpiresAt := None) else r
  }

  predicate Legal(s: State, ev: Event) {
    match ev
    case ClaimNext(picked, _, now, stamp) =>
      && s.clock <= now <= stamp
      && (match picked
          case Some(id) => MayPick(s, id, now)
          case None => forall id <- s.rows :: !Claimable(s, id, now))
    case ScheduleRetry(_, _, _) => true
    case MoveToDeadLetter(_) => true
    case Enqueue(_, attempts, maxRetries, now) => s.clock <= now && attempts < 256 && maxRetries < 256
    case _ => s.clock <= ev.now
  }

  function Rows(s: State, ev: Event): map<DeliveryId, Row> {
    match ev
    case Enqueue(id, attempts, maxRetries, now) =>
      if id in s.rows then s.rows else s.rows[id := NewRow(attempts, maxRetries, now)]
    case ClaimNext(Some(id), lease, now, stamp) =>
      if Claimable(s, id, now) then s.rows[id := ClaimedRow(s.rows[id], lease, stamp)] else s.rows
    case ClaimNext(None, _, _, _) => s.rows
    case Ack(id, now) => if id in s.rows then s.rows[id := AckedRow(s.rows[id], now)] else s.rows
    case ScheduleRetry(id, readAt, delay) =>
      if id in s.rows then s.rows[id := RetriedRow(s.rows[id], readAt, delay)] else s.rows
    case MoveToDeadLetter(id) => if id in s.rows then s.rows[id := DeadRow(s.rows[id])] else s.rows
    case Reclaim(now) => map id <- s.rows :: ReclaimedRow(s.rows[id], now)
  }

  function Apply(s: State, ev: Event): State {
    State(Rows(s, ev),
          if ev.ClaimNext? then ev.stamp
          else if ev.ScheduleRetry? || ev.MoveToDeadLetter? then s.clock
          else ev.now)
  }

  function Replay(evs: seq<Event>): State {
    if |evs| == 0 then EMPTY else Apply(Replay(evs[..|evs| - 1]), evs[|evs| - 1])
  }

  ghost predicate LegalRun(evs: seq<Event>) {
    |evs| > 0 ==> LegalRun(evs[..|evs| - 1]) && Legal(Replay(evs[..|evs| - 1]), evs[|evs| - 1])
  }

  predicate Claims(ev: Event, id: DeliveryId) {
    ev.ClaimNext? && ev.picked == Some(id)
  }

  predicate Finishes(ev: Event, id: DeliveryId) {
    (ev.Ack? || ev.ScheduleRetry? || ev.MoveToDeadLetter?) && ev.id == id
  }

  function FinishStatus(ev: Event): Status {
    if ev.Ack? then Delivered else if ev.ScheduleRetry? then Pending else DeadLettered
  }

  function RowAfter(r: Row, ev: Event, id: DeliveryId): Row {
    if Claims(ev, id) then ClaimedRow(r, ev.lease, ev.stamp)
    else if ev.Ack? && ev.id == id then AckedRow(r, ev.now)
    else if ev.ScheduleRetry? && ev.id == id then RetriedRow(r, ev.readAt, ev.delay)
    else if ev.MoveToDeadLetter? && ev.id == id then DeadRow(r)
    else if ev.Reclaim? then ReclaimedRow(r, ev.now)
    else r
  }

  lemma RowStep(s: State, ev: Event, id: DeliveryId)
    requires id in s.rows && Legal(s, ev)
    ensures id in Apply(s, ev).rows && Apply(s, ev).rows[id] == RowAfter(s.rows[id], ev, id)
    ensures Claims(ev, id) ==> s.rows[id].status == Pending
  {
    hide Format, LessEq;
  }

  lemma RowAppears(s: State, ev: Event, id: DeliveryId)
    requires id !in s.rows && Legal(s, ev)
    ensures id in Apply(s, ev).rows <==> ev.Enqueue? && ev.id == id
    ensures id in Apply(s, ev).rows ==> Apply(s, ev).rows[id] == NewRow(ev.attempts, ev.maxRetries, ev.now)
    ensures !Claims(ev, id)
  {
    hide Format, LessEq;
  }

  /** No call removes a delivery, acknowledgement included. */
  lemma {:induction false} RowsAreNeverRemoved(evs: seq<Event>, k: nat, id: DeliveryId)
    requires LegalRun(evs) && k <= |evs| && id in Replay(evs[..k]).rows
    ensures id in Replay(evs).rows
    ensures Replay(evs).rows[id].maxRetries == Replay(evs[..k]).rows[id].maxRetries
    ensures Replay(evs).rows[id].attempts >= Replay(evs[..k]).rows[id].attempts
    decreases |evs|
  {
    hide Apply, Legal, Format;
    if k == |evs| {
      assert evs[..k] == evs;
    } else {
      var n := |evs| - 1;
      assert evs[..n][..k] == evs[..k];
      RowsAreNeverRemoved(evs[..n], k, id);
      RowStep(Replay(evs[..n]), evs[n], id);
    }
  }

  /** A delivered or dead-lettered row is reopened or rewritten exactly by a late
      finishing call: those filter on the id alone. */
  lemma FinalRowChangesExactly(s: State, ev: Event, id: DeliveryId)
    requires id in s.rows && s.rows[id].status.Final() && Legal(s, ev)
    ensures id in Apply(s, ev).rows
    ensures Apply(s, ev).rows[id].status != s.rows[id].status
        <==> Finishes(ev, id) && FinishStatus(ev) != s.rows[id].status
  {
    hide Apply, Legal, Format;
    RowStep(s, ev, id);
  }

  // ---- the dispatcher -------------------------------------------------------

  datatype Outcome = Acknowledge | RetryIn(secs: nat) | GiveUp

  /** `deliver`, from the response and the row as it was claimed. */
  function Decide(attempts: nat, maxRetries: nat, success: bool): Outcome {
    if success then Acknowledge
    else if attempts <= maxRetries then RetryIn(Pow2(if attempts < 4 then attempts else 4))
    else GiveUp
  }

  predicate Carries(ev: Event, id: DeliveryId, o: Outcome) {
    match o
    case Acknowledge => ev.Ack? && ev.id == id
    case RetryIn(secs) => ev.ScheduleRetry? && ev.id == id && ev.delay == secs
    case GiveUp => ev.MoveToDeadLetter? && ev.id == id
  }

  /** Every outcome is recorded before its lease expires: finishing calls come from
      the dispatcher, on a row still leased to it, and a reclaim finds nothing. */
  ghost predicate Timely(s: State, ev: Event) {
    && (ev.Ack? || ev.ScheduleRetry? || ev.MoveToDeadLetter? ==>
          && ev.id in s.rows && s.rows[ev.id].status == Processing
          && exists success :: Carries(ev, ev.id, Decide(AsU8(s.rows[ev.id].attempts), s.rows[ev.id].maxRetries, success)))
    && (ev.Reclaim? ==> forall id <- s.rows :: !LeaseExpired(s.rows[id], ev.now))
  }

  ghost predicate TimelyRun(evs: seq<Event>) {
    |evs| > 0 ==> TimelyRun(evs[..|evs| - 1]) && Timely(Replay(evs[..|evs| - 1]), evs[|evs| - 1])
  }

  function ClaimCount(evs: seq<Event>, id: DeliveryId): nat {
    if |evs| == 0 then 0
    else ClaimCount(evs[..|evs| - 1], id) + if Claims(evs[|evs| - 1], id) then 1 else 0
  }

  /** The most attempts a row that started at `first` can reach. */
  function Ceiling(first: nat, maxRetries: nat): nat {
    (if first > maxRetries then first else maxRetries) + 1
  }

  predicate WithinBudget(r: Row, first: nat) {
    && r.attempts <= Ceiling(first, r.maxRetries)
    && (r.status == Pending ==> r.attempts < Ceiling(first, r.maxRetries))
  }

  /** Steps a row can still take before it is final. */
  function Rank(r: Row, first: nat): int {
    if r.status.Final() then 0
    else 2 * (Ceiling(first, r.maxRetries) - r.attempts) + if r.status == Processing then 1 else 0
  }

  /** One timely step keeps the budget, and every step that touches a row not yet
      final brings it strictly nearer to final. */
  lemma TimelyRowStep(s: State, ev: Event, id: DeliveryId, first: nat)
    requires id in s.rows && Legal(s, ev) && Timely(s, ev) && WithinBudget(s.rows[id], first)
    requires first < 255 && s.rows[id].maxRetries < 255
    ensures WithinBudget(RowAfter(s.rows[id], ev, id), first)
    ensures RowAfter(s.rows[id], ev, id).maxRetries == s.rows[id].maxRetries
    ensures !s.rows[id].status.Final() && RowAfter(s.rows[id], ev, id) != s.rows[id] ==>
              0 <= Rank(RowAfter(s.rows[id], ev, id), first) < Rank(s.rows[id], first)
    ensures s.rows[id].status.Final() ==> RowAfter(s.rows[id], ev, id) == s.rows[id]
  {
    hide Format, LessEq, Less;
    if Claims(ev, id) {
      RowStep(s, ev, id);
    }
  }

  /** In every timely run a delivery enqueued with `first` attempts and at most 254
      retries is claimed at most max(first, max_retries) + 1 - first times, which is
      max_retries + 1 for the deliveries the engine enqueues. */
  lemma {:induction false} ClaimsAreBounded(evs: seq<Event>, k: nat, id: DeliveryId)
    requires LegalRun(evs) && TimelyRun(evs) && k < |evs|
    requires evs[k].Enqueue? && evs[k].id == id && id !in Replay(evs[..k]).rows
    requires evs[k].attempts < 255 && evs[k].maxRetries < 255
    ensures id in Replay(evs).rows && WithinBudget(Replay(evs).rows[id], evs[k].attempts)
    ensures Replay(evs).rows[id].maxRetries == evs[k].maxRetries
    ensures Replay(evs).rows[id].attempts == evs[k].attempts + ClaimCount(evs, id)
    ensures ClaimCount(evs, id) <= Ceiling(evs[k].attempts, evs[k].maxRetries) - evs[k].attempts
    decreases |evs|
  {
    hide Apply, Legal, Timely, Format;
    var n := |evs| - 1;
    var s := Replay(evs[..n]);
    if k == n {
      RowAppears(s, evs[n], id);
      NeverTouchedBefore(evs[..n], id);
    } else {
      assert evs[..n][..k] == evs[..k];
      ClaimsAreBounded(evs[..n], k, id);
      RowStep(s, evs[n], id);
      TimelyRowStep(s, evs[n], id, evs[k].attempts);
    }
  }

  /** Steps after the first `k` that changed the row of `id`. */
  function Touches(evs: seq<Event>, k: nat, id: DeliveryId): nat {
    if |evs| <= k then 0
    else
      var init := evs[..|evs| - 1];
      Touches(init, k, id) + if RowOf(init, id) != RowOf(evs, id) then 1 else 0
  }

  function RowOf(evs: seq<Event>, id: DeliveryId): Option<Row> {
    if id in Replay(evs).rows then Some(Replay(evs).rows[id]) else None
  }

  /** So a delivery comes to an end: in a timely run its row changes at most
      2 (max(first, max_retries) + 1 - first) times after it was enqueued, one step
      fewer for every rank still left, and none once it is final. */
  lemma {:induction false} DeliveryComesToAnEnd(evs: seq<Event>, k: nat, id: DeliveryId)
    requires LegalRun(evs) && TimelyRun(evs) && k < |evs|
    requires evs[k].Enqueue? && evs[k].id == id && id !in Replay(evs[..k]).rows
    requires evs[k].attempts < 255 && evs[k].maxRetries < 255
    ensures id in Replay(evs).rows
    ensures Touches(evs, k + 1, id) + Rank(Replay(evs).rows[id], evs[k].attempts)
            <= 2 * (Ceiling(evs[k].attempts, evs[k].maxRetries) - evs[k].attempts)
    ensures Rank(Replay(evs).rows[id], evs[k].attempts) == 0 <==> Replay(evs).rows[id].status.Final()
    decreases |evs|
  {
    hide Apply, Legal, Timely, Format;
    var n := |evs| - 1;
    var s := Replay(evs[..n]);
    ClaimsAreBounded(evs, k, id);
    if k == n {
      RowAppears(s, evs[n], id);
    } else {
      assert evs[..n][..k] == evs[..k];
      DeliveryComesToAnEnd(evs[..n], k, id);
      ClaimsAreBounded(evs[..n], k, id);
      RowStep(s, evs[n], id);
      TimelyRowStep(s, evs[n], id, evs[k].attempts);
    }
  }

  /** When nothing is left to claim at a time past every retry and no lease is out,
      every delivery is delivered or dead-lettered. */
  lemma DrainedQueueIsFinal(s: State, ev: Event)
    requires ev.ClaimNext? && ev.picked == None && Legal(s, ev)
    requires forall id <- s.rows :: s.rows[id].status != Processing
    requires forall id <- s.rows :: s.rows[id].nextRetryAt.Some? ==> LessEq(s.rows[id].nextRetryAt.value, Format(ev.now))
    ensures forall id <- s.rows :: s.rows[id].status.Final()
  {
    forall id | id in s.rows
      ensures s.rows[id].status.Final()
    {
      assert !Claimable(s, id, ev.now);
    }
  }

  // ---- giving up and backing off --------------------------------------------

  function RetryCount(evs: seq<Event>, id: DeliveryId): nat {
    if |evs| == 0 then 0
    else RetryCount(evs[..|evs| - 1], id) + if Retries(evs[|evs| - 1], id) then 1 else 0
  }

  predicate Retries(ev: Event, id: DeliveryId) {
    ev.ScheduleRetry? && ev.id == id
  }

  /** A row, and how often its delivery was claimed and retried so far. */
  predicate Book(r: Row, claims: nat, retries: nat) {
    && r.attempts == claims == retries + (if r.status == Pending then 0 else 1)
    && (r.maxRetries < 255 ==> r.attempts <= r.maxRetries + (if r.status == Pending then 0 else 1))
    && (r.status == DeadLettered ==> r.maxRetries < 255 && r.attempts == r.maxRetries + 1)
  }

  lemma BookStep(s: State, ev: Event, id: DeliveryId, claims: nat, retries: nat)
    requires id in s.rows && Legal(s, ev) && Timely(s, ev)
    requires Book(s.rows[id], claims, retries) && s.rows[id].maxRetries < 256
    ensures Book(RowAfter(s.rows[id], ev, id), claims + (if Claims(ev, id) then 1 else 0),
                 retries + if Retries(ev, id) then 1 else 0)
    ensures RowAfter(s.rows[id], ev, id).maxRetries == s.rows[id].maxRetries
  {
    hide Format, LessEq, Less;
    if Claims(ev, id) {
      RowStep(s, ev, id);
    }
  }

  lemma {:induction false} NeverTouchedBefore(evs: seq<Event>, id: DeliveryId)
    requires LegalRun(evs) && TimelyRun(evs) && id !in Replay(evs).rows
    ensures ClaimCount(evs, id) == RetryCount(evs, id) == DelaySum(evs, id) == 0
    decreases |evs|
  {
    hide Apply, Legal;
    if |evs| > 0 {
      var n := |evs| - 1;
      if id in Replay(evs[..n]).rows {
        RowStep(Replay(evs[..n]), evs[n], id);
      } else {
        RowAppears(Replay(evs[..n]), evs[n], id);
        NeverTouchedBefore(evs[..n], id);
      }
    }
  }

  /** Event `k` of a timely run enqueues the delivery as the engine does. */
  ghost predicate Enqueued(evs: seq<Event>, k: nat, id: DeliveryId) {
    && LegalRun(evs) && TimelyRun(evs) && k < |evs|
    && evs[k].Enqueue? && evs[k].id == id && id !in Replay(evs[..k]).rows
    && evs[k].attempts == 0 && evs[k].maxRetries < 256
  }

  lemma EnqueuedBefore(evs: seq<Event>, k: nat, id: DeliveryId)
    requires Enqueued(evs, k, id) && k < |evs| - 1
    ensures Enqueued(evs[..|evs| - 1], k, id)
  {
    assert evs[..|evs| - 1][..k] == evs[..k];
  }

  lemma {:induction false} Booked(evs: seq<Event>, k: nat, id: DeliveryId)
    requires Enqueued(evs, k, id)
    ensures id in Replay(evs).rows && Replay(evs).rows[id].maxRetries == evs[k].maxRetries
    ensures Book(Replay(evs).rows[id], ClaimCount(evs, id), RetryCount(evs, id))
    decreases |evs|
  {
    hide Apply, Legal, Timely, Format, Book;
    var n := |evs| - 1;
    var s := Replay(evs[..n]);
    if k == n {
      RowAppears(s, evs[n], id);
      NeverTouchedBefore(evs[..n], id);
      NewRowBooked(evs[n]);
    } else {
      EnqueuedBefore(evs, k, id);
      Booked(evs[..n], k, id);
      RowStep(s, evs[n], id);
      BookStep(s, evs[n], id, ClaimCount(evs[..n], id), RetryCount(evs[..n], id));
    }
  }

  lemma NewRowBooked(ev: Event)
    requires ev.Enqueue? && ev.attempts == 0
    ensures Book(NewRow(ev.attempts, ev.maxRetries, ev.now), 0, 0)
  {
  }

  /** In every timely run a delivery is given up exactly when it was claimed
      max_retries + 1 times and the last attempt is over and failed, and never under
      a limit of 255, which the u8 attempt count cannot exceed. */
  lemma GivesUpExactly(evs: seq<Event>, k: nat, id: DeliveryId)
    requires Enqueued(evs, k, id)
    ensures id in Replay(evs).rows
    ensures var r := Replay(evs).rows[id];
            r.status == DeadLettered <==>
              && evs[k].maxRetries < 255 && ClaimCount(evs, id) == evs[k].maxRetries + 1
              && r.status != Processing && r.status != Delivered
  {
    hide Enqueued;
    Booked(evs, k, id);
  }

  lemma {:induction false} TimelyPrefix(evs: seq<Event>, j: nat)
    requires LegalRun(evs) && TimelyRun(evs) && j <= |evs|
    ensures LegalRun(evs[..j]) && TimelyRun(evs[..j])
    ensures j < |evs| ==> Legal(Replay(evs[..j]), evs[j]) && Timely(Replay(evs[..j]), evs[j])
    decreases |evs|
  {
    hide Legal, Timely;
    if j == |evs| {
      assert evs[..j] == evs;
    } else {
      var n := |evs| - 1;
      TimelyPrefix(evs[..n], j);
      assert evs[..n][..j] == evs[..j];
    }
  }

  /** Seconds before retry `n` of a delivery; the attempt count is a u8. */
  function DelayBefore(n: nat): nat {
    Pow2(if AsU8(n) < 4 then AsU8(n) else 4)
  }

  lemma RetryStepIs(s: State, ev: Event, id: DeliveryId, claims: nat, retries: nat)
    requires id in s.rows && Timely(s, ev) && Retries(ev, id)
    requires Book(s.rows[id], claims, retries) && s.rows[id].maxRetries < 256
    ensures ev.delay == DelayBefore(retries + 1) && (s.rows[id].maxRetries < 255 ==> retries + 1 <= s.rows[id].maxRetries)
  {
    hide Pow2, LeaseExpired;
    var r := s.rows[id];
    var success :| Carries(ev, id, Decide(AsU8(r.attempts), r.maxRetries, success));
    assert r.attempts == retries + 1;
  }

  lemma EnqueuedPrefix(evs: seq<Event>, k: nat, j: nat, id: DeliveryId)
    requires Enqueued(evs, k, id) && k < j < |evs|
    ensures Enqueued(evs[..j], k, id) && evs[..j][k] == evs[k] && evs[k].Enqueue? && evs[k].maxRetries < 256
    ensures Timely(Replay(evs[..j]), evs[j])
  {
    hide Legal, Timely, Apply;
    TimelyPrefix(evs, j);
    assert evs[..j][..k] == evs[..k];
  }

  /** In every timely run, the n-th retry of a delivery is scheduled 2^min(n mod 256, 4)
      seconds on, and n stays within the limit when that is below 255. */
  lemma RetryDelayIs(evs: seq<Event>, k: nat, j: nat, id: DeliveryId)
    requires Enqueued(evs, k, id) && k < j < |evs| && Retries(evs[j], id)
    ensures evs[k].Enqueue?
    ensures var n := RetryCount(evs[..j], id) + 1;
            evs[j].delay == DelayBefore(n) && (evs[k].maxRetries < 255 ==> n <= evs[k].maxRetries)
  {
    hide Enqueued, Timely, Book, DelayBefore, RetryCount, ClaimCount, Replay;
    EnqueuedPrefix(evs, k, j, id);
    Booked(evs[..j], k, id);
    RetryStepIs(Replay(evs[..j]), evs[j], id, ClaimCount(evs[..j], id), RetryCount(evs[..j], id));
  }

  /** Seconds of delay scheduled for the delivery over a run. */
  function DelaySum(evs: seq<Event>, id: DeliveryId): nat {
    if |evs| == 0 then 0
    else
      var last := evs[|evs| - 1];
      DelaySum(evs[..|evs| - 1], id) + if Retries(last, id) then last.delay else 0
  }

  lemma DelayIs(n: nat)
    requires 0 < n < 256
    ensures DelayBefore(n) == if n == 1 then 2 else if n == 2 then 4 else if n == 3 then 8 else 16
  {
    assert Pow2(1) == 2 && Pow2(2) == 4 && Pow2(3) == 8 && Pow2(4) == 16;
  }

  /** So the delays of a delivery's first n retries are 2, 4, 8 and then 16 seconds, in
      every timely run, up to the 255th. */
  lemma {:induction false} BackoffSchedule(evs: seq<Event>, k: nat, id: DeliveryId)
    requires Enqueued(evs, k, id) && RetryCount(evs, id) < 256
    ensures var n := RetryCount(evs, id);
            DelaySum(evs, id) == if n == 0 then 0 else if n == 1 then 2 else if n == 2 then 2 + 4
                                 else 2 + 4 + 8 + 16 * (n - 3)
    decreases |evs|
  {
    hide DelayBefore;
    var n := |evs| - 1;
    if k == n {
      NeverTouchedBefore(evs[..n], id);
    } else {
      EnqueuedBefore(evs, k, id);
      hide Enqueued;
      BackoffSchedule(evs[..n], k, id);
      if Retries(evs[n], id) {
        RetryDelayIs(evs, k, n, id);
        DelayIs(RetryCount(evs, id));
      }
    }
  }

  // ---- the queue object -----------------------------------------------------

  lemma {:induction false} FirstExists(s: State, candidates: set<DeliveryId>)
    requires candidates != {} && forall x <- candidates :: x in s.rows
    ensures exists a :: a in candidates && forall b <- candidates :: LessEq(s.rows[a].createdAt, s.rows[b].createdAt)
  {
    hide Less;
    var x :| x in candidates;
    var rest := candidates - {x};
    if rest == {} {
      assert candidates == {x};
      assert forall b <- candidates :: LessEq(s.rows[x].createdAt, s.rows[b].createdAt);
    } else {
      FirstExists(s, rest);
      var a :| a in rest && forall b <- rest :: LessEq(s.rows[a].createdAt, s.rows[b].createdAt);
      LessTotal(s.rows[a].createdAt, s.rows[x].createdAt);
      if LessEq(s.rows[a].createdAt, s.rows[x].createdAt) {
        assert forall b <- candidates :: LessEq(s.rows[a].createdAt, s.rows[b].createdAt);
      } else {
        forall b | b in candidates
          ensures LessEq(s.rows[x].createdAt, s.rows[b].createdAt)
        {
          if b != x && s.rows[a].createdAt != s.rows[b].createdAt {
            LessTransitive(s.rows[x].createdAt, s.rows[a].createdAt, s.rows[b].createdAt);
          }
        }
      }
    }
  }

  lemma PickExists(s: State, candidates: set<DeliveryId>, now: nat)
    requires candidates == (set id | id in s.rows && Claimable(s, id, now)) && candidates != {}
    ensures exists a :: a in candidates && MayPick(s, a, now)
  {
    hide LessEq;
    FirstExists(s, candidates);
    var a :| a in candidates && forall b <- candidates :: LessEq(s.rows[a].createdAt, s.rows[b].createdAt);
    assert MayPick(s, a, now);
  }

  lemma SameRowsSamePick(s: State, t: State, now: nat)
    requires s.rows == t.rows
    ensures forall x :: Claimable(s, x, now) <==> Claimable(t, x, now)
    ensures forall x :: MayPick(s, x, now) <==> MayPick(t, x, now)
  {
    hide Format, LessEq;
  }

  lemma AppendLegal(evs: seq<Event>, e: Event)
    requires LegalRun(evs) && Legal(Replay(evs), e)
    ensures LegalRun(evs + [e]) && Replay(evs + [e]) == Apply(Replay(evs), e)
  {
    assert (evs + [e])[..|evs|] == evs;
  }

  /** The dispatcher may be given row `x`: the WHERE clause, column by column. */
  ghost predicate Offered(rows: map<DeliveryId, Row>, x: DeliveryId, now: nat) {
    && x in rows && rows[x].status.Pending?
    && (rows[x].nextRetryAt.Some? ==> !Less(Format(now), rows[x].nextRetryAt.value))
  }

  lemma OfferedExactly(s: State, x: DeliveryId, now: nat)
    ensures Offered(s.rows, x, now) <==> Claimable(s, x, now)
  {
    hide Less, LessEq, Format;
    if x in s.rows && s.rows[x].nextRetryAt.Some? {
      NotAfterIsAtMost(s.rows[x].nextRetryAt.value, Format(now));
    }
  }

  /** Every claim in a legal run takes a row on offer than which none on offer is older,
      and none only if none is on offer. */
  lemma ClaimTakesOldest(s: State, ev: Event)
    requires ev.ClaimNext? && Legal(s, ev)
    ensures ev.picked == None <==> forall x :: !Offered(s.rows, x, ev.now)
    ensures ev.picked.Some? ==>
              && Offered(s.rows, ev.picked.value, ev.now)
              && forall x :: Offered(s.rows, x, ev.now) ==>
                   !Less(s.rows[x].createdAt, s.rows[ev.picked.value].createdAt)
  {
    hide Less, LessEq, Format, Claimable, Offered;
    forall x
      ensures Offered(s.rows, x, ev.now) <==> Claimable(s, x, ev.now)
    {
      OfferedExactly(s, x, ev.now);
    }
    ClaimableIsRow(s, ev.now);
    if ev.picked.Some? {
      forall x | Claimable(s, x, ev.now)
        ensures x in s.rows && !Less(s.rows[x].createdAt, s.rows[ev.picked.value].createdAt)
      {
        NotAfterIsAtMost(s.rows[ev.picked.value].createdAt, s.rows[x].createdAt);
      }
    }
  }

  lemma ClaimableIsRow(s: State, now: nat)
    ensures forall x :: Claimable(s, x, now) ==> x in s.rows
  {
  }

  class SqliteWebhookQueue {
    var rows: map<DeliveryId, Row>
    ghost var clock: nat
    ghost var log: seq<Event>

    ghost function Db(): State
      reads this
    {
      State(rows, clock)
    }

    ghost predicate Valid()
      reads this
    {
      LegalRun(log) && Replay(log) == Db()
    }

    constructor ()
      ensures Valid() && log == [] && Db() == EMPTY
    {
      rows, clock, log := map[], 0, [];
    }

    ghost method Record(ev: Event, before: State)
      requires LegalRun(log) && Replay(log) == before && Legal(before, ev)
      requires rows == Rows(before, ev) && clock == before.clock
      modifies this`clock, this`log
      ensures Valid() && log == old(log) + [ev] && Db() == Apply(before, ev)
    {
      AppendLegal(log, ev);
      log := log + [ev];
      clock := Apply(before, ev).clock;
    }

    method Insert(id: DeliveryId, attempts: nat, maxRetries: nat, now: nat) returns (ok: bool)
      requires Valid() && clock <= now && attempts < 256 && maxRetries < 256
      modifies this
      ensures Valid() && log == old(log) + [Enqueue(id, attempts, maxRetries, now)]
      ensures Db() == Apply(old(Db()), Enqueue(id, attempts, maxRetries, now))
      ensures ok <==> id !in old(rows)
      ensures rows == if ok then old(rows)[id := Row(Pending, attempts, maxRetries, None, None, None, Format(now), None)]
                      else old(rows)
    {
      hide LegalRun, Replay, Format;
      ghost var before := Db();
      ok := id !in rows;
      if ok {
        rows := rows[id := Row(Pending, attempts, maxRetries, None, None, None, Format(now), None)];
      }
      Record(Enqueue(id, attempts, maxRetries, now), before);
    }

    method Claim(lease: string, now: nat, stamp: nat) returns (picked: Option<DeliveryId>)
      requires Valid() && clock <= now <= stamp
      modifies this
      ensures Valid() && log == old(log) + [ClaimNext(picked, lease, now, stamp)]
      ensures Db() == Apply(old(Db()), ClaimNext(picked, lease, now, stamp))
      ensures picked == None <==> forall x :: !Offered(old(rows), x, now)
      ensures picked.Some? ==>
                && Offered(old(rows), picked.value, now)
                && forall x :: Offered(old(rows), x, now) ==>
                     !Less(old(rows)[x].createdAt, old(rows)[picked.value].createdAt)
      ensures picked == None ==> rows == old(rows)
      ensures picked.Some? ==>
                var r := old(rows)[picked.value];
                rows == old(rows)[picked.value := r.(
                  status := Processing, leaseId := Some(lease), attempts := r.attempts + 1,
                  leaseExpiresAt := Some(Format((stamp + 60) % 0x1_0000_0000_0000_0000)))]
    {
      hide LegalRun, Replay, Format, LessEq;
      ghost var before := Db();
      var s := State(rows, 0);
      SameRowsSamePick(s, before, now);
      var candidates := set id | id in rows && Claimable(s, id, now);
      if candidates == {} {
        picked := None;
        assert forall id <- rows :: id !in candidates;
      } else {
        PickExists(s, candidates, now);
        var id :| id in candidates && MayPick(s, id, now);
        picked := Some(id);
        var r := rows[id];
        rows := rows[id := r.(status := Processing, leaseId := Some(lease),
                              leaseExpiresAt := Some(Format(WrappingAdd(stamp, LEASE_SECS))),
                              attempts := r.attempts + 1)];
      }
      ClaimTakesOldest(before, ClaimNext(picked, lease, now, stamp));
      Record(ClaimNext(picked, lease, now, stamp), before);
    }

    method Acked(id: DeliveryId, now: nat)
      requires Valid() && clock <= now
      modifies this
      ensures Valid() && log == old(log) + [Ack(id, now)] && Db() == Apply(old(Db()), Ack(id, now))
      ensures rows == if id in old(rows)
                      then old(rows)[id := old(rows)[id].(
                             status := Delivered, deliveredAt := Some(Format(now)), leaseId := None, leaseExpiresAt := None)]
                      else old(rows)
    {
      hide LegalRun, Replay, Format;
      ghost var before := Db();
      if id in rows {
        rows := rows[id := rows[id].(status := Delivered, deliveredAt := Some(Format(now)),
                                     leaseId := None, leaseExpiresAt := None)];
      }
      Record(Ack(id, now), before);
    }

    method RetryLater(id: DeliveryId, readAt: nat, delay: nat)
      requires Valid()
      modifies this
      ensures Valid() && log == old(log) + [ScheduleRetry(id, readAt, delay)]
      ensures Db() == Apply(old(Db()), ScheduleRetry(id, readAt, delay))
      ensures rows == if id in old(rows)
                      then old(rows)[id := old(rows)[id].(
                             status := Pending, leaseId := None, leaseExpiresAt := None,
                             nextRetryAt := Some(Format((readAt + delay) % 0x1_0000_0000_0000_0000)))]
                      else old(rows)
    {
      hide LegalRun, Replay, Format;
      ghost var before := Db();
      if id in rows {
        rows := rows[id := rows[id].(status := Pending, nextRetryAt := Some(Format(WrappingAdd(readAt, delay))),
                                     leaseId := None, leaseExpiresAt := None)];
      }
      Record(ScheduleRetry(id, readAt, delay), before);
    }

    method Bury(id: DeliveryId)
      requires Valid()
      modifies this
      ensures Valid() && log == old(log) + [MoveToDeadLetter(id)]
      ensures Db() == Apply(old(Db()), MoveToDeadLetter(id))
      ensures rows == if id in old(rows)
                      then old(rows)[id := old(rows)[id].(
                             status := DeadLettered, leaseId := None, leaseExpiresAt := None)]
                      else old(rows)
    {
      hide LegalRun, Replay;
      ghost var before := Db();
      if id in rows {
        rows := rows[id := rows[id].(status := DeadLettered, leaseId := None, leaseExpiresAt := None)];
      }
      Record(MoveToDeadLetter(id), before);
    }

    method ReclaimExpiredLeases(now: nat) returns (count: nat)
      requires Valid() && clock <= now
      modifies this
      ensures Valid() && log == old(log) + [Reclaim(now)] && Db() == Apply(old(Db()), Reclaim(now))
      ensures rows.Keys == old(rows).Keys
      ensures forall x <- rows ::
                var r := old(rows)[x];
                rows[x] == if r.status.Processing? && r.leaseId.Some? && r.leaseExpiresAt.Some?
                              && Less(r.leaseExpiresAt.value, Format(now))
                           then r.(status := Pending, leaseId := None, leaseExpiresAt := None) else r
      ensures count == |set x <- rows | rows[x] != old(rows)[x]|
    {
      hide LegalRun, Replay, Format;
      ghost var before := Db();
      var expired := set id <- rows | LeaseExpired(rows[id], now);
      count := |expired|;
      rows := map id <- rows :: ReclaimedRow(rows[id], now);
      assert expired == set x <- rows | rows[x] != before.rows[x];
      Record(Reclaim(now), before);
    }
  }

  /** `deliver` with the response given: a success is acknowledged, a failure is retried
      while attempts remain, after 2, 4, 8 or 16 seconds, and else dead-lettered. While
      the lease of the delivery is still out the step it takes is a timely one. */
  method Deliver(queue: SqliteWebhookQueue, id: DeliveryId, attempts: nat, maxRetries: nat, success: bool, now: nat)
    requires queue.Valid() && queue.clock <= now
    modifies queue
    ensures queue.Valid() && |queue.log| == |old(queue.log)| + 1 && old(queue.log) <= queue.log
    ensures var last := queue.log[|old(queue.log)|];
            && (success <==> last == Ack(id, now))
            && (!success && attempts <= maxRetries <==>
                  last == ScheduleRetry(id, now, if attempts == 0 then 1 else if attempts == 1 then 2
                                                 else if attempts == 2 then 4 else if attempts == 3 then 8 else 16))
            && (!success && attempts > maxRetries <==> last == MoveToDeadLetter(id))
    ensures queue.rows.Keys == old(queue.rows).Keys
    ensures forall x <- queue.rows :: x != id ==> queue.rows[x] == old(queue.rows)[x]
    ensures id in old(queue.rows) ==>
              queue.rows[id].status == if success then Delivered else if attempts <= maxRetries then Pending else DeadLettered
    ensures Carries(queue.log[|old(queue.log)|], id, Decide(attempts, maxRetries, success))
    ensures queue.Db() == Apply(old(queue.Db()), queue.log[|old(queue.log)|])
    ensures id in old(queue.rows) && old(queue.rows)[id].status == Processing
            && attempts == AsU8(old(queue.rows)[id].attempts) && maxRetries == old(queue.rows)[id].maxRetries ==>
              Timely(old(queue.Db()), queue.log[|old(queue.log)|])
  {
    DelayAfter(attempts);
    hide Apply, LegalRun, Replay, Pow2, Format;
    if success {
      queue.Acked(id, now);
    } else if attempts <= maxRetries {
      queue.RetryLater(id, now, Pow2(if attempts < 4 then attempts else 4));
    } else {
      queue.Bury(id);
    }
    assert Carries(queue.log[|old(queue.log)|], id, Decide(attempts, maxRetries, success));
  }

  lemma DelayAfter(attempts: nat)
    ensures Pow2(if attempts < 4 then attempts else 4)
            == if attempts == 0 then 1 else if attempts == 1 then 2 else if attempts == 2 then 4
               else if attempts == 3 then 8 else 16
  {
    assert Pow2(0) == 1 && Pow2(1) == 2 && Pow2(2) == 4 && Pow2(3) == 8 && Pow2(4) == 16;
  }
}
