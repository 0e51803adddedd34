/** What the 60 s leases of the webhook queue mean over whole runs. The dispatcher's
    outcomes are not assumed to be in time here: any calls may be made in any order. */
module WebhookLeases {
  import opened Text
  import opened Timestamp
  import opened Webhook

  predicate Reads(ev: Event) {
    !ev.ScheduleRetry? && !ev.MoveToDeadLetter?
  }

  /** The clock right after `ev`, which reads it. */
  function ClockAt(ev: Event): nat
    requires Reads(ev)
  {
    if ev.ClaimNext? then ev.stamp else ev.now
  }

  lemma ClockStep(s: State, ev: Event)
    requires Legal(s, ev)
    ensures s.clock <= Apply(s, ev).clock
    ensures Reads(ev) ==> s.clock <= ev.now && Apply(s, ev).clock == ClockAt(ev)
  {
    hide Rows, MayPick;
  }

  lemma {:induction false} LegalPrefix(evs: seq<Event>, k: nat)
    requires LegalRun(evs) && k < |evs|
    ensures LegalRun(evs[..k]) && Legal(Replay(evs[..k]), evs[k])
    ensures Replay(evs[..k + 1]) == Apply(Replay(evs[..k]), evs[k])
    decreases |evs|
  {
    hide Legal, Apply;
    var n := |evs| - 1;
    if k == n {
      assert evs[..k + 1] == evs;
    } else {
      LegalPrefix(evs[..n], k);
      assert evs[..n][..k] == evs[..k] && evs[..n][..k + 1] == evs[..k + 1];
    }
  }

  lemma {:induction false} ClockNeverGoesBack(evs: seq<Event>, k: nat)
    requires LegalRun(evs) && k <= |evs|
    ensures Replay(evs[..k]).clock <= Replay(evs).clock
    decreases |evs|
  {
    hide Legal, Apply;
    if k == |evs| {
      assert evs[..k] == evs;
    } else {
      var n := |evs| - 1;
      ClockNeverGoesBack(evs[..n], k);
      assert evs[..n][..k] == evs[..k];
      ClockStep(Replay(evs[..n]), evs[n]);
    }
  }

  lemma ReadsInOrder(evs: seq<Event>, m: nat, j: nat)
    requires LegalRun(evs) && m < j < |evs| && Reads(evs[m]) && Reads(evs[j])
    ensures ClockAt(evs[m]) <= evs[j].now
  {
    hide Legal, Apply;
    LegalPrefix(evs, m);
    LegalPrefix(evs, j);
    ClockStep(Replay(evs[..m]), evs[m]);
    ClockStep(Replay(evs[..j]), evs[j]);
    ClockNeverGoesBack(evs[..j], m + 1);
    assert evs[..j][..m + 1] == evs[..m + 1];
  }

  /** A step that may put `id`, claimed with clock `stamp`, back on offer. */
  predicate Releases(ev: Event, id: DeliveryId, stamp: nat) {
    Retries(ev, id) || (ev.Reclaim? && ev.now > stamp + 60)
  }

  predicate Held(r: Row, stamp: nat) {
    r.status != Pending && (r.status == Processing ==> r.leaseExpiresAt == Some(Format(stamp + LEASE_SECS)))
  }

  lemma HeldIsNotReclaimed(r: Row, stamp: nat, now: nat)
    requires Held(r, stamp) && now <= stamp + LEASE_SECS < YEAR_10000
    ensures ReclaimedRow(r, now) == r
  {
    hide Format, Less;
    ExpiryTest(stamp + LEASE_SECS, now);
  }

  lemma HeldStep(s: State, ev: Event, id: DeliveryId, stamp: nat)
    requires id in s.rows && Held(s.rows[id], stamp) && Legal(s, ev)
    requires stamp + LEASE_SECS < YEAR_10000 && (ev.Reclaim? ==> ev.now < YEAR_10000)
    requires !Releases(ev, id, stamp)
    ensures id in Apply(s, ev).rows && Held(Apply(s, ev).rows[id], stamp) && !Claims(ev, id)
  {
    RowStep(s, ev, id);
    hide Apply, Legal, Format, ReclaimedRow;
    if ev.Reclaim? {
      HeldIsNotReclaimed(s.rows[id], stamp, ev.now);
    }
  }

  lemma {:induction false} HeldAlong(evs: seq<Event>, i: nat, k: nat, id: DeliveryId)
    requires LegalRun(evs) && i < k <= |evs| && Claims(evs[i], id)
    requires evs[i].stamp + LEASE_SECS < YEAR_10000
    requires forall m :: i < m < k && evs[m].Reclaim? ==> evs[m].now < YEAR_10000
    requires forall m :: i < m < k ==> !Releases(evs[m], id, evs[i].stamp)
    ensures id in Replay(evs[..k]).rows && Held(Replay(evs[..k]).rows[id], evs[i].stamp)
    decreases k
  {
    hide Held, LegalRun, Apply, Legal;
    LegalPrefix(evs, k - 1);
    if k == i + 1 {
      ClaimHolds(Replay(evs[..i]), evs[i], id);
    } else {
      HeldAlong(evs, i, k - 1, id);
      HeldStep(Replay(evs[..k - 1]), evs[k - 1], id, evs[i].stamp);
    }
  }

  lemma ClaimHolds(s: State, ev: Event, id: DeliveryId)
    requires Legal(s, ev) && Claims(ev, id) && ev.stamp + LEASE_SECS < YEAR_10000
    ensures id in Apply(s, ev).rows && Held(Apply(s, ev).rows[id], ev.stamp)
  {
    hide Format, LessEq;
  }

  /** Between two claims of one delivery, whatever was called and in whatever order,
      somebody scheduled a retry of it or a reclaim ran strictly after the first lease
      ran out. */
  lemma LeaseExclusion(evs: seq<Event>, i: nat, j: nat, id: DeliveryId)
    requires LegalRun(evs) && i < j < |evs| && Claims(evs[i], id) && Claims(evs[j], id)
    requires evs[j].now + LEASE_SECS < YEAR_10000
    ensures exists m :: i < m < j && Releases(evs[m], id, evs[i].stamp)
  {
    hide LegalRun, Apply, Legal;
    if forall m :: i < m < j ==> !Releases(evs[m], id, evs[i].stamp) {
      ReadsInOrder(evs, i, j);
      forall m | i < m < j && evs[m].Reclaim?
        ensures evs[m].now < YEAR_10000
      {
        ReadsInOrder(evs, m, j);
      }
      HeldAlong(evs, i, j, id);
      LegalPrefix(evs, j);
      RowStep(Replay(evs[..j]), evs[j], id);
      assert false;
    }
  }

  // ---- a late outcome -------------------------------------------------------

  const ENQUEUE := Enqueue("d", 0, 3, 0)
  const CLAIM := ClaimNext(Some("d"), "lease", 0, 0)

  lemma AfterClaiming()
    ensures LegalRun([ENQUEUE] + [CLAIM])
    ensures var s := Replay([ENQUEUE] + [CLAIM]); s.clock == 0 && "d" in s.rows && s.rows["d"].status == Processing
  {
    hide Format;
    assert [ENQUEUE][..0] == [] && Replay([]) == EMPTY && LegalRun([]);
    var s := Replay([ENQUEUE]);
    assert s == Apply(EMPTY, ENQUEUE) && s.rows == map["d" := NewRow(0, 3, 0)];
    assert MayPick(s, "d", 0);
    AppendLegal([ENQUEUE], CLAIM);
    RowStep(s, CLAIM, "d");
  }

  /** A retry scheduled after the acknowledgement reopens a delivered row. */
  lemma LateRetryReopens()
    ensures var evs := [ENQUEUE] + [CLAIM] + [Ack("d", 1)]; var late := ScheduleRetry("d", 1, 2);
            && LegalRun(evs + [late])
            && "d" in Replay(evs).rows && Replay(evs).rows["d"].status == Delivered
            && "d" in Replay(evs + [late]).rows && Replay(evs + [late]).rows["d"].status == Pending
  {
    hide Format, Replay, LegalRun;
    AfterClaiming();
    var claimed := [ENQUEUE] + [CLAIM];
    var evs, late := claimed + [Ack("d", 1)], ScheduleRetry("d", 1, 2);
    AppendLegal(claimed, Ack("d", 1));
    RowStep(Replay(claimed), Ack("d", 1), "d");
    AppendLegal(evs, late);
    RowStep(Replay(evs), late, "d");
  }
}
