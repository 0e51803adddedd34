/** Statuses and rows of the batch tables (batch_engine/src/job.rs, db.rs). */
module BatchTypes {
  import opened Text

  datatype BatchStatus = Queued | Processing | Completed | Failed | Cancelling | Cancelled | Expired {
    function AsStr(): string {
      match this
      case Queued => "queued"
      case Processing => "processing"
      case Completed => "completed"
      case Failed => "failed"
      case Cancelling => "cancelling"
      case Cancelled => "cancelled"
      case Expired => "expired"
    }

    predicate IsTerminal() {
      Completed? || Failed? || Cancelled? || Expired?
    }
  }

  datatype ItemStatus = Pending | Processing | Succeeded | Failed | Cancelled {
    function AsStr(): string {
      match this
      case Pending => "pending"
      case Processing => "processing"
      case Succeeded => "succeeded"
      case Failed => "failed"
      case Cancelled => "cancelled"
    }

    predicate IsTerminal() {
      Succeeded? || Failed? || Cancelled?
    }
  }

  /** Unknown text reads as `Failed`. */
  function BatchStatusFromStr(s: string): BatchStatus {
    if s == "queued" then Queued
    else if s == "processing" then BatchStatus.Processing
    else if s == "completed" then Completed
    else if s == "cancelling" then Cancelling
    else if s == "cancelled" then BatchStatus.Cancelled
    else if s == "expired" then Expired
    else BatchStatus.Failed
  }

  function ItemStatusFromStr(s: string): ItemStatus {
    if s == "pending" then Pending
    else if s == "processing" then ItemStatus.Processing
    else if s == "succeeded" then Succeeded
    else if s == "cancelled" then ItemStatus.Cancelled
    else ItemStatus.Failed
  }

  /** Storing a status as text and reading it back loses nothing, so the tables
      may be modelled with the statuses themselves; unknown text is the one case
      that does not come back. */
  lemma StatusTextRoundTrip(b: BatchStatus, i: ItemStatus, t: string)
    ensures BatchStatusFromStr("queued") == Queued && BatchStatusFromStr("processing") == BatchStatus.Processing
    ensures BatchStatusFromStr("completed") == Completed && BatchStatusFromStr("failed") == BatchStatus.Failed
    ensures BatchStatusFromStr("cancelling") == Cancelling && BatchStatusFromStr("cancelled") == BatchStatus.Cancelled
    ensures BatchStatusFromStr("expired") == Expired
    ensures ItemStatusFromStr("pending") == Pending && ItemStatusFromStr("processing") == ItemStatus.Processing
    ensures ItemStatusFromStr("succeeded") == Succeeded && ItemStatusFromStr("failed") == ItemStatus.Failed
    ensures ItemStatusFromStr("cancelled") == ItemStatus.Cancelled
    ensures BatchStatusFromStr(b.AsStr()) == b
    ensures ItemStatusFromStr(i.AsStr()) == i
    ensures BatchStatusFromStr(t).AsStr() == t
        <==> t in {"queued", "processing", "completed", "failed", "cancelling", "cancelled", "expired"}
    ensures ItemStatusFromStr(t).AsStr() == t
        <==> t in {"pending", "processing", "succeeded", "failed", "cancelled"}
  {
    match i
    case Pending => assert i.AsStr() == "pending";
    case Processing => assert i.AsStr() == "processing";
    case Succeeded => assert i.AsStr() == "succeeded";
    case Failed => assert i.AsStr() == "failed";
    case Cancelled => assert i.AsStr() == "cancelled";
  }

  datatype ExecutionMode = Native(provider: string) | ProxyNative

  type BatchId = string
  type ItemId = string
  type LeaseId = string

  datatype Counts = Counts(total: nat, processing: nat, succeeded: nat, failed: nat, cancelled: nat, expired: nat)

  datatype Job = Job(
    status: BatchStatus,
    mode: ExecutionMode,
    priority: nat,
    counts: Counts,
    createdAt: string,
    startedAt: Option<string>,
    completedAt: Option<string>,
    expiresAt: string)

  datatype Item = Item(
    batchId: BatchId,
    customId: string,
    status: ItemStatus,
    request: string,
    resultStatus: Option<nat>,
    resultBody: Option<string>,
    attempts: nat,
    maxRetries: nat,
    lastError: Option<string>,
    nextRetryAt: Option<string>,
    leaseId: Option<LeaseId>,
    leaseExpiresAt: Option<string>,
    createdAt: string,
    completedAt: Option<string>)

  datatype DeadLetter = DeadLetter(
    batchId: BatchId,
    customId: string,
    request: string,
    lastError: Option<string>,
    attempts: nat,
    failedAt: string)

  /** The columns `enqueue` inserts for a job; the others take their defaults. */
  datatype NewJob = NewJob(
    id: BatchId,
    status: BatchStatus,
    mode: ExecutionMode,
    priority: nat,
    total: nat,
    createdAt: string,
    expiresAt: string)

  /** The columns `enqueue` inserts for an item; the others take their defaults. */
  datatype NewItem = NewItem(
    id: ItemId,
    batchId: BatchId,
    customId: string,
    status: ItemStatus,
    request: string,
    maxRetries: nat,
    createdAt: string)
}
