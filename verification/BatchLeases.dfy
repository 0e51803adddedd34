/** What leases, retries and attempt counts mean over whole runs of the batch queue. */
module BatchLeases {
  import opened Text
  import opened Timestamp
  import opened BatchTypes
  import opened BatchQueue
  import opened BatchRows

  lemma ClockStep(s: State, ev: Event)
    requires Legal(s, ev)
    ensures s.clock <= Apply(s, ev).clock == ClockAfter(s.clock, ev)
    ensures FirstRead(ev).Some? ==> s.clock <= ev.now && Apply(s, ev).clock == ClockAfter(0, ev)
  {
    hide Effect, MayPick;
  }

  lemma {:induction false} ClockNeverGoesBack(s: State, evs: seq<Event>, k: nat)
    requires LegalFrom(s, evs) && k <= |evs|
    ensures ReplayFrom(s, evs[..k]).clock <= ReplayFrom(s, evs).clock
    decreases |evs|
  {
    hide Apply, Legal;
    if k == |evs| {
      assert evs[..k] == evs;
    } else {
      var n := |evs| - 1;
      PrefixLegal(s, evs, n);
      ClockNeverGoesBack(s, evs[..n], k);
      assert evs[..n][..k] == evs[..k];
      StepAt(s, evs, n);
      assert evs[..n + 1] == evs;
      ClockStep(ReplayFrom(s, evs[..n]), evs[n]);
    }
  }

  /** Events read the clock in order. */
  lemma ReadsInOrder(evs: seq<Event>, m: nat, j: nat)
    requires LegalRun(evs) && m < j < |evs|
    requires FirstRead(evs[m]).Some? && FirstRead(evs[j]).Some?
    ensures ClockAfter(0, evs[m]) <= evs[j].now
  {
    hide Apply, Legal;
    StepAt(EMPTY, evs, m);
    StepAt(EMPTY, evs, j);
    ClockStep(Replay(evs[..m]), evs[m]);
    ClockStep(Replay(evs[..j]), evs[j]);
    PrefixLegal(EMPTY, evs, j);
    ClockNeverGoesBack(EMPTY, evs[..j], m + 1);
    assert evs[..j][..m + 1] == evs[..m + 1];
  }

  lemma PickedIsPending(s: State, ev: Event, x: ItemId)
    requires Legal(s, ev) && Claims(ev, x)
    ensures x in s.items && s.items[x].status == Pending && RetryDue(s.items[x], ev.now)
  {
  }

  // ---- lease exclusion ------------------------------------------------------

  /** A step that may put `x`, claimed with clock `stamp`, back on offer. */
  predicate Releases(ev: Event, x: ItemId, stamp: nat) {
    Retries(ev, x) || (ev.Reclaim? && ev.now > stamp + 120)
  }

  predicate Held(i: Item, stamp: nat) {
    && i.status != Pending
    && (i.status == ItemStatus.Processing ==> i.leaseExpiresAt == Some(Format(stamp + LEASE_SECS)))
  }

  lemma HeldStep(s: State, ev: Event, x: ItemId, stamp: nat)
    requires x in s.items && Held(s.items[x], stamp) && Legal(s, ev)
    requires stamp + LEASE_SECS < YEAR_10000
    requires ev.Reclaim? ==> ev.now < YEAR_10000
    requires !Releases(ev, x, stamp)
    ensures Held(RowAfter(s, ev, x), stamp) && !Claims(ev, x)
  {
    hide Format;
    if ev.Reclaim? {
      ExpiryTest(stamp + LEASE_SECS, ev.now);
    }
  }

  lemma {:induction false} HeldAlong(evs: seq<Event>, i: nat, k: nat, x: ItemId)
    requires LegalRun(evs) && i < k <= |evs| && Claims(evs[i], x)
    requires evs[i].stamp + LEASE_SECS < YEAR_10000
    requires forall m :: i < m < k && evs[m].Reclaim? ==> evs[m].now < YEAR_10000
    requires forall m :: i < m < k ==> !Releases(evs[m], x, evs[i].stamp)
    ensures x in Replay(evs[..k]).items && Held(Replay(evs[..k]).items[x], evs[i].stamp)
    decreases k
  {
    hide Apply, Format, Legal;
    var s := Replay(evs[..k - 1]);
    StepAt(EMPTY, evs, k - 1);
    if k == i + 1 {
      PickedIsPending(s, evs[i], x);
      RowStep(s, evs[i], x);
    } else {
      HeldAlong(evs, i, k - 1, x);
      RowStep(s, evs[k - 1], x);
      HeldStep(s, evs[k - 1], x, evs[i].stamp);
    }
  }

  /** Between two claims of one item, whatever was called and in whatever order,
      somebody scheduled a retry of it or a reclaim ran strictly after the first
      lease ran out. */
  lemma LeaseExclusion(evs: seq<Event>, i: nat, j: nat, x: ItemId)
    requires LegalRun(evs) && i < j < |evs|
    requires Claims(evs[i], x) && Claims(evs[j], x)
    requires evs[j].now + LEASE_SECS < YEAR_10000
    ensures exists m :: i < m < j && Releases(evs[m], x, evs[i].stamp)
  {
    hide Apply, Format, MayPick;
    if forall m :: i < m < j ==> !Releases(evs[m], x, evs[i].stamp) {
      ReadsInOrder(evs, i, j);
      forall m | i < m < j && evs[m].Reclaim?
        ensures evs[m].now < YEAR_10000
      {
        ReadsInOrder(evs, m, j);
      }
      HeldAlong(evs, i, j, x);
      StepAt(EMPTY, evs, j);
      PickedIsPending(Replay(evs[..j]), evs[j], x);
      assert false;
    }
  }

  /** The clock bound is exact: a reclaim right after a claim takes the item back
      if and only if the lease has run out or its expiry falls in year 10000. */
  lemma LeaseHoldsExactly(s: State, x: ItemId, claim: Event, reclaim: Event)
    requires Claims(claim, x) && Legal(s, claim) && claim.stamp < YEAR_10000
    requires reclaim.Reclaim? && Legal(Apply(s, claim), reclaim) && reclaim.now < YEAR_10000
    ensures x in Apply(Apply(s, claim), reclaim).items
    ensures Apply(Apply(s, claim), reclaim).items[x].status == Pending
        <==> claim.stamp + 120 < reclaim.now || claim.stamp + 120 >= YEAR_10000
  {
    hide Apply, Format, MayPick;
    PickedIsPending(s, claim, x);
    RowStep(s, claim, x);
    RowStep(Apply(s, claim), reclaim, x);
    ExpiryTest(claim.stamp + LEASE_SECS, reclaim.now);
  }

  // ---- attempts and lease columns -------------------------------------------

  function ClaimCount(evs: seq<Event>, x: ItemId): nat {
    if |evs| == 0 then 0
    else ClaimCount(evs[..|evs| - 1], x) + if Claims(evs[|evs| - 1], x) then 1 else 0
  }

  /** `attempts` is the number of times the item was claimed. */
  lemma {:induction false} AttemptsCountClaims(evs: seq<Event>, x: ItemId)
    requires LegalRun(evs)
    ensures ClaimCount(evs, x) == if x in Replay(evs).items then Replay(evs).items[x].attempts else 0
  {
    hide Apply, Format, Legal;
    if |evs| > 0 {
      var k := |evs| - 1;
      var s := Replay(evs[..k]);
      PrefixLegal(EMPTY, evs, k);
      AttemptsCountClaims(evs[..k], x);
      StepAt(EMPTY, evs, k);
      assert evs[..k + 1] == evs;
      if Claims(evs[k], x) {
        PickedIsPending(s, evs[k], x);
      }
      if x in s.items {
        RowStep(s, evs[k], x);
      } else if x in Replay(evs).items {
        RowAppears(s, evs[k], x);
      }
    }
  }

  /** What `submit` hands to `enqueue`. */
  predicate Submitted(ev: Event) {
    ev.Enqueue? ==>
      && ev.job.status == Queued
      && ev.job.total == |ev.news|
      && forall n <- ev.news :: n.status == Pending && n.batchId == ev.job.id
  }

  ghost predicate SubmitRun(evs: seq<Event>) {
    LegalRun(evs) && forall ev <- evs :: Submitted(ev)
  }

  lemma SubmitPrefix(evs: seq<Event>, k: nat)
    requires SubmitRun(evs) && k <= |evs|
    ensures SubmitRun(evs[..k])
  {
    PrefixLegal(EMPTY, evs, k);
  }

  predicate LeaseColumns(i: Item) {
    (i.status == ItemStatus.Processing <==> i.leaseId.Some?) && (i.leaseId.Some? <==> i.leaseExpiresAt.Some?)
  }

  /** An item is processing exactly while both lease columns are set. */
  lemma {:induction false} ProcessingIffLeased(evs: seq<Event>, x: ItemId)
    requires SubmitRun(evs) && x in Replay(evs).items
    ensures LeaseColumns(Replay(evs).items[x])
    decreases |evs|
  {
    hide Apply, Format, Legal;
    if |evs| > 0 {
      var k := |evs| - 1;
      var s := Replay(evs[..k]);
      SubmitPrefix(evs, k);
      StepAt(EMPTY, evs, k);
      assert evs[..k + 1] == evs;
      assert evs[k] in evs;
      if x in s.items {
        ProcessingIffLeased(evs[..k], x);
        RowStep(s, evs[k], x);
      } else {
        RowAppears(s, evs[k], x);
      }
    }
  }

  // ---- retries --------------------------------------------------------------

  lemma RetryTimeStep(s: State, ev: Event, x: ItemId)
    requires x in s.items && Legal(s, ev) && !Retries(ev, x)
    ensures RowAfter(s, ev, x).nextRetryAt == s.items[x].nextRetryAt
  {
    hide Format;
  }

  lemma {:induction false} RetryTimeKept(evs: seq<Event>, i: nat, k: nat, x: ItemId)
    requires LegalRun(evs) && i < k <= |evs| && Retries(evs[i], x)
    requires x in Replay(evs[..i]).items
    requires forall m :: i < m < k ==> !Retries(evs[m], x)
    ensures x in Replay(evs[..k]).items
    ensures Replay(evs[..k]).items[x].nextRetryAt == Some(Format(WrappingAdd(evs[i].readAt, evs[i].delay)))
    decreases k
  {
    hide Apply, Format, Legal;
    var s := Replay(evs[..k - 1]);
    StepAt(EMPTY, evs, k - 1);
    if k == i + 1 {
      RowStep(s, evs[i], x);
    } else {
      RetryTimeKept(evs, i, k - 1, x);
      RowStep(s, evs[k - 1], x);
      RetryTimeStep(s, evs[k - 1], x);
    }
  }

  /** After `schedule_retry` the item is not claimed before the delay has passed. */
  lemma RetryDelayHonoured(evs: seq<Event>, i: nat, j: nat, x: ItemId)
    requires LegalRun(evs) && i < j < |evs| && Retries(evs[i], x) && Claims(evs[j], x)
    requires x in Replay(evs[..i]).items
    requires forall m :: i < m < j ==> !Retries(evs[m], x)
    requires evs[i].readAt + evs[i].delay < YEAR_10000 && evs[j].now < YEAR_10000
    ensures evs[i].readAt + evs[i].delay <= evs[j].now
  {
    hide *;
    EventKinds(evs[i], evs[j], x);
    RetryTimeKept(evs, i, j, x);
    SumFits(evs[i].readAt, evs[i].delay);
    ClaimedWhenDue(evs, j, x);
    DueMeansReached(Replay(evs[..j]).items[x], evs[i].readAt + evs[i].delay, evs[j].now);
  }

  lemma EventKinds(retry: Event, claim: Event, x: ItemId)
    requires Retries(retry, x) && Claims(claim, x)
    ensures retry.ScheduleRetry? && claim.Claim?
  {
  }

  lemma ClaimedWhenDue(evs: seq<Event>, j: nat, x: ItemId)
    requires LegalRun(evs) && j < |evs| && Claims(evs[j], x)
    ensures x in Replay(evs[..j]).items && RetryDue(Replay(evs[..j]).items[x], evs[j].now)
  {
    hide Apply, Format, RetryDue, MayPick, LessEq;
    StepAt(EMPTY, evs, j);
    PickedIsPending(Replay(evs[..j]), evs[j], x);
  }

  lemma DueMeansReached(i: Item, at: nat, now: nat)
    requires at < YEAR_10000 && now < YEAR_10000 && i.nextRetryAt == Some(Format(at)) && RetryDue(i, now)
    ensures at <= now
  {
    hide Format;
    TextAtMostIsTimeAtMost(at, now);
  }

  /** A retry time past year 9999 is due exactly when the first four digits of its year
      are a smaller number than the current year: in the years 10000 to 19999 it is due
      at any clock from 2000 on. */
  lemma RetryPastYear9999Exactly(i: Item, readAt: nat, delay: nat, error: string, now: nat)
    requires now < YEAR_10000 <= WrappingAdd(readAt, delay)
    ensures var at := WrappingAdd(readAt, delay);
            && (RetryDue(RetriedRow(i, Format(at), error), now) <==> LeadingFour(YearOf(at)) < YearOf(now))
            && (YearOf(at) < 20000 && YearOf(now) >= 2000 ==> RetryDue(RetriedRow(i, Format(at), error), now))
  {
    var at := WrappingAdd(readAt, delay);
    TwentyCharacters(now);
    TwentyCharacters(at);
    FarTimeSorts(now, at);
    FormatIsCalendar(at);
  }
}
