/** Short runs from empty tables that show where the batch queue does less than its
    documentation says. Each is a legal run of calls. */
module BatchScenarios {
  import opened Text
  import opened Timestamp
  import opened BatchTypes
  import opened BatchQueue
  import opened BatchRows
  import opened BatchLeases
  import opened BatchCancel
  import opened BatchCounts

  const JOB := NewJob("b", Queued, ProxyNative, 0, 1, "t", "u")
  const ITEM := NewItem("x", "b", "c", Pending, "", 3, "t")
  const SUBMIT := Enqueue(JOB, [ITEM])
  const CLAIM := Claim(Some("x"), "lease", 0, 0)

  lemma AfterSubmit()
    ensures LegalRun([SUBMIT]) && SubmitRun([SUBMIT]) && DisciplinedFrom(EMPTY, [SUBMIT])
    ensures var s := Replay([SUBMIT]);
            && s.jobs == map["b" := JobRow(JOB)] && s.items == map["x" := ItemRow(ITEM)] && s.clock == 0
  {
    assert [SUBMIT][..0] == [] && Replay([]) == EMPTY;
    assert [ITEM][..0] == [];
    assert InsertAll(map["b" := JobRow(JOB)], map[], []) == Some(map[]);
    assert InsertAll(map["b" := JobRow(JOB)], map[], [ITEM]) == Some(map["x" := ItemRow(ITEM)]);
    assert EMPTY.jobs[JOB.id := JobRow(JOB)] == map["b" := JobRow(JOB)];
  }

  /** Submit one item and claim it. */
  lemma AfterClaiming()
    ensures SubmitRun([SUBMIT, CLAIM]) && DisciplinedFrom(EMPTY, [SUBMIT, CLAIM])
    ensures var s := Replay([SUBMIT, CLAIM]);
            && "x" in s.items && s.items["x"].status == ItemStatus.Processing && s.items["x"].batchId == "b"
            && "b" in s.jobs && s.jobs["b"].status == BatchStatus.Processing && s.clock == 0
  {
    hide Format, Replay, LegalRun;
    AfterSubmit();
    var s := Replay([SUBMIT]);
    assert Claimable(s, "x", 0);
    assert MayPick(s, "x", 0);
    assert Disciplined(s, CLAIM);
    ExtendRun([SUBMIT], CLAIM);
    assert [SUBMIT] + [CLAIM] == [SUBMIT, CLAIM];
    RowStep(s, CLAIM, "x");
    JobStep(s, CLAIM, "b");
  }

  lemma ExtendRun(evs: seq<Event>, ev: Event)
    requires SubmitRun(evs) && DisciplinedFrom(EMPTY, evs) && Submitted(ev)
    requires Legal(Replay(evs), ev) && Disciplined(Replay(evs), ev)
    ensures SubmitRun(evs + [ev]) && DisciplinedFrom(EMPTY, evs + [ev]) && Replay(evs + [ev]) == Apply(Replay(evs), ev)
  {
    hide Legal, Disciplined, Apply, Submitted;
    Extend(EMPTY, evs, ev);
  }

  /** A late `complete_item` turns a failed item into a succeeded one. */
  lemma LateCompletionOverwrites()
    ensures var evs := [SUBMIT, CLAIM] + [Fail("x", "e", 1)]; var late := Complete("x", 200, "ok", 2);
            && LegalRun(evs + [late])
            && "x" in Replay(evs).items && Replay(evs).items["x"].status == ItemStatus.Failed
            && "x" in Replay(evs + [late]).items && Replay(evs + [late]).items["x"].status == Succeeded
  {
    hide Format, Replay, LegalRun;
    AfterClaiming();
    var evs, late := [SUBMIT, CLAIM] + [Fail("x", "e", 1)], Complete("x", 200, "ok", 2);
    AppendLegal([SUBMIT, CLAIM], Fail("x", "e", 1));
    RowStep(Replay([SUBMIT, CLAIM]), Fail("x", "e", 1), "x");
    ClockStep(Replay([SUBMIT, CLAIM]), Fail("x", "e", 1));
    AppendLegal(evs, late);
    RowStep(Replay(evs), late, "x");
  }

  /** `complete_batch` turns a cancelled job into a completed one. */
  lemma CancelledJobIsCompleted()
    ensures var evs := [SUBMIT] + [Cancel("b", 0)]; var done := CompleteBatch("b", 0);
            && LegalRun(evs + [done])
            && "b" in Replay(evs).jobs && Replay(evs).jobs["b"].status == BatchStatus.Cancelled
            && "b" in Replay(evs + [done]).jobs && Replay(evs + [done]).jobs["b"].status == Completed
  {
    hide Format, Replay, LegalRun;
    AfterSubmit();
    var evs, done := [SUBMIT] + [Cancel("b", 0)], CompleteBatch("b", 0);
    AppendLegal([SUBMIT], Cancel("b", 0));
    JobStep(Replay([SUBMIT]), Cancel("b", 0), "b");
    ClockStep(Replay([SUBMIT]), Cancel("b", 0));
    AppendLegal(evs, done);
    JobStep(Replay(evs), done, "b");
  }

  const CANCEL := Cancel("b", 0)
  const RETRY := ScheduleRetry("x", 0, 1, "e")

  /** One item, claimed, its batch cancelled twice, then retried by its worker: a run of
      disciplined calls after which no disciplined continuation completes the batch. */
  lemma CancelledBatchIsStuck()
    ensures var evs := [SUBMIT, CLAIM] + [CANCEL] + [CANCEL] + [RETRY];
            && SubmitRun(evs) && DisciplinedFrom(EMPTY, evs)
            && forall more :: LegalFrom(Replay(evs), more) && DisciplinedFrom(Replay(evs), more) ==>
                 !IsBatchComplete(ReplayFrom(Replay(evs), more), "b")
  {
    hide Format, Replay, LegalRun, LegalFrom, DisciplinedFrom, IsBatchComplete, SubmitRun, Apply;
    AfterClaiming();
    var a := [SUBMIT, CLAIM];
    var s := Replay(a);
    JobStep(s, CANCEL, "b");
    RowStep(s, CANCEL, "x");
    ClockStep(s, CANCEL);
    ExtendRun(a, CANCEL);
    var t := Replay(a + [CANCEL]);
    RowStep(t, CANCEL, "x");
    ClockStep(t, CANCEL);
    ExtendRun(a + [CANCEL], CANCEL);
    ExtendRun(a + [CANCEL] + [CANCEL], RETRY);
    forall more | LegalFrom(Replay(a + [CANCEL] + [CANCEL] + [RETRY]), more)
                  && DisciplinedFrom(Replay(a + [CANCEL] + [CANCEL] + [RETRY]), more)
      ensures !IsBatchComplete(ReplayFrom(Replay(a + [CANCEL] + [CANCEL] + [RETRY]), more), "b")
    {
      CancelledBatchNeverCompletes(s, "b", "x", RETRY, 0, more);
    }
  }
}
