/** Sliding-window rate limiting over Redis sorted sets (proxy/src/ratelimit.rs).
    One key at a time; scores are timestamps in milliseconds. */
module RateLimit {
  import opened Text

  const WINDOW: nat := 60000
  const KEY_TTL: nat := 120000

  datatype Entry = Entry(score: nat, member: string)

  /** A sorted set: entries in ascending score. */
  type SortedSet = seq<Entry>

  predicate Ascending(z: SortedSet) {
    forall i, j :: 0 <= i < j < |z| ==> z[i].score <= z[j].score
  }

  /** Entries scored above `c`: what ZREMRANGEBYSCORE key -inf c leaves. */
  function Above(z: SortedSet, c: int): SortedSet {
    if |z| == 0 then []
    else
      var init := Above(z[..|z| - 1], c);
      if z[|z| - 1].score > c then init + [z[|z| - 1]] else init
  }

  /** ZREM of one member. */
  function Without(z: SortedSet, member: string): SortedSet {
    if |z| == 0 then []
    else
      var init := Without(z[..|z| - 1], member);
      if z[|z| - 1].member != member then init + [z[|z| - 1]] else init
  }

  function InsertByScore(z: SortedSet, e: Entry): SortedSet {
    if |z| == 0 || z[|z| - 1].score <= e.score then z + [e]
    else InsertByScore(z[..|z| - 1], e) + [z[|z| - 1]]
  }

  /** ZADD: a member is in the set once. */
  function ZAdd(z: SortedSet, e: Entry): SortedSet {
    InsertByScore(Without(z, e.member), e)
  }

  predicate HasMember(z: SortedSet, member: string) {
    exists e <- z :: e.member == member
  }

  /** The start of the window that ends at `now`; entries at it or before are out. */
  function Cutoff(now: nat): nat {
    if now >= WINDOW then now - WINDOW else 0
  }

  function RetryAfterSecs(oldest: nat, now: nat): nat {
    var ms := if oldest + WINDOW >= now then oldest + WINDOW - now else 0;
    if ms / 1000 > 1 then ms / 1000 else 1
  }

  // ---- facts about sorted sets ----------------------------------------------

  lemma {:induction false} AboveTwice(z: SortedSet, c: int, d: int)
    requires c <= d
    ensures Above(Above(z, c), d) == Above(z, d)
  {
    if |z| > 0 {
      AboveTwice(z[..|z| - 1], c, d);
      var init := Above(z[..|z| - 1], c);
      assert (init + [z[|z| - 1]])[..|init|] == init;
    }
  }

  lemma AboveAppend(z: SortedSet, e: Entry, c: int)
    ensures Above(z + [e], c) == if e.score > c then Above(z, c) + [e] else Above(z, c)
  {
    assert (z + [e])[..|z|] == z;
  }

  lemma {:induction false} AboveIsSubset(z: SortedSet, c: int)
    ensures forall e <- Above(z, c) :: e in z && e.score > c
    ensures Ascending(z) ==> Ascending(Above(z, c))
    ensures |Above(z, c)| <= |z|
  {
    if |z| > 0 {
      AboveIsSubset(z[..|z| - 1], c);
      var init := Above(z[..|z| - 1], c);
      forall k | 0 <= k < |init|
        ensures init[k] in z
      {
        assert init[k] in init;
      }
    }
  }

  lemma {:induction false} AboveNothing(z: SortedSet, c: int)
    requires forall e <- z :: e.score <= c
    ensures Above(z, c) == []
  {
    if |z| > 0 {
      AboveNothing(z[..|z| - 1], c);
    }
  }

  lemma {:induction false} WithoutAbsent(z: SortedSet, member: string)
    requires !HasMember(z, member)
    ensures Without(z, member) == z
  {
    if |z| > 0 {
      WithoutAbsent(z[..|z| - 1], member);
      assert z[|z| - 1] in z;
      assert z[..|z| - 1] + [z[|z| - 1]] == z;
    }
  }

  /** With the clock not going back a new entry goes last. */
  lemma ZAddAppends(z: SortedSet, e: Entry)
    requires !HasMember(z, e.member) && forall x <- z :: x.score <= e.score
    ensures ZAdd(z, e) == z + [e]
  {
    WithoutAbsent(z, e.member);
    if |z| > 0 {
      assert z[|z| - 1] in z;
    }
  }

  // ---- one key over a run ---------------------------------------------------

  /** The stored set beside everything that was ever added to it. `floor` is the
      highest score known to be gone; `expiry` is when Redis may drop the key. */
  datatype Ledger = Ledger(entries: SortedSet, history: SortedSet, clock: nat, floor: nat, expiry: nat)

  const FRESH := Ledger([], [], 0, 0, 0)

  datatype Call =
    | CheckRpm(limit: nat, now: nat, member: string)
    | CheckTpm(limit: nat, now: nat)
    | RecordTpm(now: nat, tokens: nat, id: string)
    | KeyExpires(now: nat)

  function TpmMember(tokens: nat, id: string): string {
    Decimal(tokens) + ":" + id
  }

  /** Timestamps never go back and are positive, member ids are new, and Redis
      drops the key only 120 s after it was last written. */
  predicate Legal(l: Ledger, call: Call) {
    && l.clock <= call.now && 0 < call.now
    && (call.CheckRpm? ==> !HasMember(l.history, call.member))
    && (call.RecordTpm? ==> !HasMember(l.history, TpmMember(call.tokens, call.id)))
    && (call.KeyExpires? ==> l.expiry <= call.now)
  }

  function Trim(l: Ledger, now: nat): Ledger {
    l.(entries := Above(l.entries, Cutoff(now)), clock := now,
       floor := if Cutoff(now) > l.floor then Cutoff(now) else l.floor)
  }

  function Add(l: Ledger, now: nat, member: string): Ledger {
    l.(entries := ZAdd(l.entries, Entry(now, member)), history := l.history + [Entry(now, member)],
       clock := now, expiry := now + KEY_TTL)
  }

  function AfterExpiry(l: Ledger, now: nat): Ledger {
    l.(entries := [], clock := now,
       floor := if |l.history| > 0 && l.history[|l.history| - 1].score > l.floor
                then l.history[|l.history| - 1].score else l.floor)
  }

  function Step(l: Ledger, call: Call): Ledger {
    match call
    case CheckRpm(limit, now, member) =>
      var t := Trim(l, now);
      if |t.entries| < limit then Add(t, now, member) else t
    case CheckTpm(_, now) => Trim(l, now)
    case RecordTpm(now, tokens, id) => Add(l, now, TpmMember(tokens, id))
    case KeyExpires(now) => AfterExpiry(l, now)
  }

  ghost predicate LegalRun(calls: seq<Call>)
    decreases |calls|, 1
  {
    |calls| > 0 ==>
      LegalRun(calls[..|calls| - 1]) && Legal(Run(calls[..|calls| - 1]), calls[|calls| - 1])
  }

  function Run(calls: seq<Call>): Ledger
    decreases |calls|, 0
  {
    if |calls| == 0 then FRESH else Step(Run(calls[..|calls| - 1]), calls[|calls| - 1])
  }

  /** The stored set holds exactly the additions above a floor that no window
      ending now or later reaches. */
  ghost predicate Sound(l: Ledger) {
    && l.entries == Above(l.history, l.floor)
    && l.floor <= Cutoff(l.clock)
    && Ascending(l.history)
    && (forall e <- l.history :: 0 < e.score <= l.clock && e.score + KEY_TTL <= l.expiry)
  }

  lemma CutoffMonotone(a: nat, b: nat)
    requires a <= b
    ensures Cutoff(a) <= Cutoff(b)
  {
  }

  lemma TrimSound(l: Ledger, now: nat)
    requires Sound(l) && l.clock <= now
    ensures Sound(Trim(l, now)) && Trim(l, now).entries == Above(l.history, Cutoff(now))
  {
    CutoffMonotone(l.clock, now);
    AboveTwice(l.history, l.floor, Cutoff(now));
  }

  lemma AddSound(l: Ledger, now: nat, member: string)
    requires Sound(l) && l.clock <= now && 0 < now && !HasMember(l.history, member)
    ensures Sound(Add(l, now, member))
  {
    AboveIsSubset(l.history, l.floor);
    CutoffMonotone(l.clock, now);
    var e := Entry(now, member);
    ZAddAppends(l.entries, e);
    AboveAppend(l.history, e, l.floor);
  }

  lemma ExpirySound(l: Ledger, now: nat)
    requires Sound(l) && l.clock <= now && l.expiry <= now
    ensures Sound(AfterExpiry(l, now))
  {
    CutoffMonotone(l.clock, now);
    var f := AfterExpiry(l, now).floor;
    forall e | e in l.history
      ensures e.score <= f
    {
      var k :| 0 <= k < |l.history| && l.history[k] == e;
    }
    AboveNothing(l.history, f);
    if |l.history| > 0 {
      assert l.history[|l.history| - 1] in l.history;
    }
  }

  lemma StepSound(l: Ledger, call: Call)
    requires Sound(l) && Legal(l, call)
    ensures Sound(Step(l, call))
  {
    hide Sound;
    match call
    case CheckRpm(limit, now, member) =>
      TrimSound(l, now);
      if |Trim(l, now).entries| < limit {
        AddSound(Trim(l, now), now, member);
      }
    case CheckTpm(_, now) =>
      TrimSound(l, now);
    case RecordTpm(now, tokens, id) =>
      AddSound(l, now, TpmMember(tokens, id));
    case KeyExpires(now) =>
      ExpirySound(l, now);
  }

  lemma {:induction false} RunSound(calls: seq<Call>)
    requires LegalRun(calls)
    ensures Sound(Run(calls))
    decreases |calls|
  {
    if |calls| > 0 {
      RunSound(calls[..|calls| - 1]);
      StepSound(Run(calls[..|calls| - 1]), calls[|calls| - 1]);
    }
  }

  // ---- requests per minute --------------------------------------------------

  /** Additions in the window (t - 60000, t]. */
  function InWindow(h: SortedSet, t: nat): SortedSet {
    UpTo(Above(h, t - WINDOW), t)
  }

  function UpTo(z: SortedSet, t: nat): SortedSet {
    if |z| == 0 then []
    else
      var init := UpTo(z[..|z| - 1], t);
      if z[|z| - 1].score <= t then init + [z[|z| - 1]] else init
  }

  lemma {:induction false} UpToShorter(z: SortedSet, t: nat)
    ensures |UpTo(z, t)| <= |z|
  {
    if |z| > 0 {
      UpToShorter(z[..|z| - 1], t);
    }
  }

  lemma {:induction false} AboveShrinks(z: SortedSet, c: int, d: int)
    requires c <= d
    ensures |Above(z, d)| <= |Above(z, c)|
  {
    AboveTwice(z, c, d);
    AboveIsSubset(Above(z, c), d);
  }

  /** The stored set decides exactly what counting the whole history would decide. */
  lemma RpmDecidesByHistory(calls: seq<Call>, limit: nat, now: nat, member: string)
    requires LegalRun(calls) && Legal(Run(calls), CheckRpm(limit, now, member))
    ensures var after := Step(Run(calls), CheckRpm(limit, now, member));
            if |Above(Run(calls).history, now - WINDOW)| < limit
            then after.history == Run(calls).history + [Entry(now, member)]
            else after.history == Run(calls).history
  {
    RunSound(calls);
    TrimSound(Run(calls), now);
    SameAbove(Run(calls).history, now);
  }

  lemma {:induction false} SameAbove(h: SortedSet, now: nat)
    requires forall e <- h :: 0 < e.score
    ensures Above(h, Cutoff(now)) == Above(h, now - WINDOW)
  {
    if |h| > 0 {
      SameAbove(h[..|h| - 1], now);
      assert h[|h| - 1] in h;
    }
  }

  ghost predicate FixedLimit(calls: seq<Call>, limit: nat) {
    forall c <- calls :: (c.CheckRpm? ==> c.limit == limit) && !c.RecordTpm?
  }

  lemma UpToAppend(z: SortedSet, e: Entry, t: nat)
    ensures UpTo(z + [e], t) == if e.score <= t then UpTo(z, t) + [e] else UpTo(z, t)
  {
    assert (z + [e])[..|z|] == z;
  }

  lemma AdmitKeepsWindows(h: SortedSet, e: Entry, limit: nat, t: nat)
    requires |Above(h, e.score - WINDOW)| < limit && |InWindow(h, t)| <= limit
    ensures |InWindow(h + [e], t)| <= limit
  {
    hide Above, UpTo;
    var c := t - WINDOW;
    AboveAppend(h, e, c);
    UpToAppend(Above(h, c), e, t);
    UpToShorter(Above(h, c), t);
    if e.score <= t {
      AboveShrinks(h, e.score - WINDOW, c);
    }
  }

  lemma {:induction false} AboveCounts(h: SortedSet, c: int)
    ensures |Above(h, c)| == |set i | 0 <= i < |h| && h[i].score > c|
  {
    if |h| > 0 {
      var n := |h| - 1;
      AboveCounts(h[..n], c);
      var few, all := set i | 0 <= i < n && h[..n][i].score > c, set i | 0 <= i < |h| && h[i].score > c;
      assert all == few + if h[n].score > c then {n} else {};
    }
  }

  lemma InWindowAppend(z: SortedSet, e: Entry, t: nat)
    ensures InWindow([], t) == []
    ensures InWindow(z + [e], t) == InWindow(z, t) + if t - 60000 < e.score <= t then [e] else []
  {
    hide Above, UpTo;
    AboveAppend(z, e, t - WINDOW);
    UpToAppend(Above(z, t - WINDOW), e, t);
    assert InWindow(z, t) + [] == InWindow(z, t);
    AboveNothing([], t - WINDOW);
    UpToShorter([], t);
  }

  lemma {:induction false} InWindowCounts(h: SortedSet, t: nat)
    ensures |InWindow(h, t)| == |set i | 0 <= i < |h| && t - 60000 < h[i].score <= t|
  {
    hide InWindow;
    if |h| > 0 {
      var n := |h| - 1;
      InWindowCounts(h[..n], t);
      assert h[..n] + [h[n]] == h;
      InWindowAppend(h[..n], h[n], t);
      var few := set i | 0 <= i < n && t - 60000 < h[..n][i].score <= t;
      var all := set i | 0 <= i < |h| && t - 60000 < h[i].score <= t;
      assert all == few + if t - 60000 < h[n].score <= t then {n} else {};
    } else {
      InWindowAppend([], Entry(0, ""), t);
    }
  }

  lemma {:induction false} WindowsHold(calls: seq<Call>, limit: nat, t: nat)
    requires LegalRun(calls) && FixedLimit(calls, limit)
    ensures |InWindow(Run(calls).history, t)| <= limit
    decreases |calls|
  {
    if |calls| > 0 {
      var init, last := calls[..|calls| - 1], calls[|calls| - 1];
      WindowsHold(init, limit, t);
      assert last in calls;
      if last.CheckRpm? {
        RpmDecidesByHistory(init, limit, last.now, last.member);
        if |Above(Run(init).history, last.now - WINDOW)| < limit {
          AdmitKeepsWindows(Run(init).history, Entry(last.now, last.member), limit, t);
        }
      }
    }
  }

  /** Whatever calls are made, and even when the key expires in between, no window
      of sixty seconds ever holds more than `limit` admitted requests. */
  lemma WindowSafety(calls: seq<Call>, limit: nat, t: nat)
    requires LegalRun(calls) && FixedLimit(calls, limit)
    ensures var h := Run(calls).history;
            |set i | 0 <= i < |h| && t - 60000 < h[i].score <= t| <= limit
  {
    hide Run, LegalRun, InWindow;
    WindowsHold(calls, limit, t);
    InWindowCounts(Run(calls).history, t);
  }

  /** Whether the next request at `now` is admitted. */
  predicate Admits(l: Ledger, limit: nat, now: nat) {
    |Trim(l, now).entries| < limit
  }

  /** A rejection under a positive limit asks for 1 to 60 seconds. */
  lemma RetryAfterInRange(calls: seq<Call>, limit: nat, now: nat, member: string)
    requires LegalRun(calls) && Legal(Run(calls), CheckRpm(limit, now, member))
    requires !Admits(Run(calls), limit, now) && 0 < limit
    ensures var z := Trim(Run(calls), now).entries;
            && |z| > 0 && (forall e <- z :: z[0].score <= e.score)
            && now - 60000 < z[0].score <= now
            && 1 <= RetryAfterSecs(z[0].score, now) <= 60
  {
    var l := Run(calls);
    RunSound(calls);
    TrimSound(l, now);
    AboveIsSubset(l.history, Cutoff(now));
    hide Above, Run, LegalRun;
    var z := Above(l.history, Cutoff(now));
    assert z[0] in z;
    forall e | e in z
      ensures z[0].score <= e.score
    {
      var k :| 0 <= k < |z| && z[k] == e;
    }
  }

  /** Fewer than `n` entries of a sorted set lie above `c` exactly when the n-th from
      the end does not. */
  lemma {:induction false} FewAboveExactly(z: SortedSet, c: int, n: nat)
    requires Ascending(z) && 0 < n <= |z|
    ensures |Above(z, c)| < n <==> z[|z| - n].score <= c
  {
    var k := |z| - 1;
    if z[k].score > c {
      if n > 1 {
        FewAboveExactly(z[..k], c, n - 1);
      }
    } else {
      AboveNothingSorted(z, c);
    }
  }

  lemma AboveNothingSorted(z: SortedSet, c: int)
    requires Ascending(z) && |z| > 0 && z[|z| - 1].score <= c
    ensures Above(z, c) == []
  {
    forall e | e in z
      ensures e.score <= c
    {
      var i :| 0 <= i < |z| && z[i] == e;
    }
    AboveNothing(z, c);
  }

  lemma RunAppend(calls: seq<Call>, call: Call)
    requires LegalRun(calls) && Legal(Run(calls), call)
    ensures LegalRun(calls + [call]) && Run(calls + [call]) == Step(Run(calls), call)
  {
    assert (calls + [call])[..|calls|] == calls;
  }

  /** The set a rejected request leaves, seen at a later time. */
  lemma AfterRejection(calls: seq<Call>, limit: nat, now: nat, member: string, later: nat)
    requires LegalRun(calls) && Legal(Run(calls), CheckRpm(limit, now, member))
    requires !Admits(Run(calls), limit, now) && now <= later
    ensures var z := Trim(Run(calls), now).entries; var next := Run(calls + [CheckRpm(limit, now, member)]);
            Ascending(z) && (forall e <- z :: 0 < e.score) && Trim(next, later).entries == Above(z, Cutoff(later))
  {
    var l := Run(calls);
    RunSound(calls);
    TrimSound(l, now);
    AboveIsSubset(l.history, Cutoff(now));
    hide Above, Sound, LegalRun, Run;
    RunAppend(calls, CheckRpm(limit, now, member));
  }

  /** When a rejected request is admitted, in any run: with no call in between, exactly
      from the time that enough of the oldest entries are a window old for fewer than
      the limit to be left. */
  lemma RetryAdmittedExactly(calls: seq<Call>, limit: nat, now: nat, member: string, later: nat)
    requires LegalRun(calls) && Legal(Run(calls), CheckRpm(limit, now, member))
    requires 0 < limit && !Admits(Run(calls), limit, now) && now <= later
    ensures var z := Trim(Run(calls), now).entries; var next := Run(calls + [CheckRpm(limit, now, member)]);
            |z| >= limit && (Admits(next, limit, later) <==> z[|z| - limit].score + 60000 <= later)
  {
    hide Above, LegalRun, Run;
    var z := Trim(Run(calls), now).entries;
    AfterRejection(calls, limit, now, member, later);
    FewAboveExactly(z, Cutoff(later), limit);
    assert z[|z| - limit] in z;
  }

  lemma {:induction false} UpToAll(z: SortedSet, t: nat)
    requires forall e <- z :: e.score <= t
    ensures UpTo(z, t) == z
  {
    if |z| > 0 {
      assert z[|z| - 1] in z && z[..|z| - 1] + [z[|z| - 1]] == z;
      UpToAll(z[..|z| - 1], t);
    }
  }

  /** Under a fixed limit a rejection means that exactly `limit` entries are stored. */
  lemma FullExactly(calls: seq<Call>, limit: nat, now: nat, member: string)
    requires LegalRun(calls) && Legal(Run(calls), CheckRpm(limit, now, member)) && FixedLimit(calls, limit)
    requires !Admits(Run(calls), limit, now)
    ensures |Trim(Run(calls), now).entries| == limit
  {
    var h := Run(calls).history;
    RunSound(calls);
    TrimSound(Run(calls), now);
    SameAbove(h, now);
    AboveIsSubset(h, now - WINDOW);
    hide Above, UpTo, LegalRun, Run;
    WindowsHold(calls, limit, now);
    UpToAll(Above(h, now - WINDOW), now);
  }

  /** So under a fixed limit a rejected request that waits is admitted exactly from the
      time the oldest entry is a window old. */
  lemma RetryAfterOldestExactly(calls: seq<Call>, limit: nat, now: nat, member: string, later: nat)
    requires LegalRun(calls) && Legal(Run(calls), CheckRpm(limit, now, member)) && FixedLimit(calls, limit)
    requires 0 < limit && !Admits(Run(calls), limit, now) && now <= later
    ensures var z := Trim(Run(calls), now).entries; var next := Run(calls + [CheckRpm(limit, now, member)]);
            |z| == limit && (Admits(next, limit, later) <==> z[0].score + 60000 <= later)
  {
    hide Above, LegalRun, Run;
    FullExactly(calls, limit, now, member);
    RetryAdmittedExactly(calls, limit, now, member, later);
  }

  /** Rounding `ms` down to whole seconds, but to no less than one, loses nothing. */
  predicate WholeWait(ms: nat) {
    ms % 1000 == 0 || ms < 1000
  }

  lemma WholeSeconds(oldest: nat, now: nat)
    requires now - 60000 < oldest <= now
    ensures var ms := oldest + 60000 - now;
            oldest + 60000 <= now + 1000 * RetryAfterSecs(oldest, now) <==> WholeWait(ms)
  {
  }

  /** Waiting the whole seconds that were handed back is enough exactly when rounding
      down lost nothing, or the answer was raised to one second. */
  lemma RetryAfterSufficesExactly(calls: seq<Call>, limit: nat, now: nat, member: string)
    requires LegalRun(calls) && Legal(Run(calls), CheckRpm(limit, now, member)) && FixedLimit(calls, limit)
    requires 0 < limit && !Admits(Run(calls), limit, now)
    ensures var z := Trim(Run(calls), now).entries; var next := Run(calls + [CheckRpm(limit, now, member)]);
            && |z| > 0 && now - 60000 < z[0].score
            && var ms := z[0].score + 60000 - now;
               Admits(next, limit, now + 1000 * RetryAfterSecs(z[0].score, now)) <==> WholeWait(ms)
  {
    hide *;
    RetryAfterInRange(calls, limit, now, member);
    var oldest := Trim(Run(calls), now).entries[0].score;
    RetryAfterOldestExactly(calls, limit, now, member, now + 1000 * RetryAfterSecs(oldest, now));
    WholeSeconds(oldest, now);
  }

  lemma OneRequest(a: string)
    ensures LegalRun([CheckRpm(1, 1, a)])
    ensures Run([CheckRpm(1, 1, a)]) == Ledger([Entry(1, a)], [Entry(1, a)], 1, 0, 1 + KEY_TTL)
  {
    var calls := [CheckRpm(1, 1, a)];
    assert calls[..0] == [] && Run([]) == FRESH && LegalRun([]);
    assert Without([], a) == [] && Above([], 0) == [] && [] + [Entry(1, a)] == [Entry(1, a)];
  }

  lemma StillStored(e: Entry, now: nat)
    requires e.score == 1 && 0 < now <= WINDOW
    ensures Above([e], Cutoff(now)) == [e]
  {
    assert [e][..0] == [] && [] + [e] == [e];
  }

  /** One request a minute: rejected after 9 ms, told to wait 59 s, and rejected again
      after those 59 s. */
  lemma RetryAfterFallsShort(a: string, b: string)
    requires a != b
    ensures var calls := [CheckRpm(1, 1, a)]; var next := Run(calls + [CheckRpm(1, 10, b)]);
            && LegalRun(calls) && Legal(Run(calls), CheckRpm(1, 10, b)) && !Admits(Run(calls), 1, 10)
            && RetryAfterSecs(1, 10) == 59 && !Admits(next, 1, 10 + 59000)
  {
    hide Above, LegalRun, Run;
    var calls := [CheckRpm(1, 1, a)];
    OneRequest(a);
    StillStored(Entry(1, a), 10);
    RetryAdmittedExactly(calls, 1, 10, b, 10 + 59000);
  }

  /** Timestamp 0 is outside the guarantee: the script's score 0 means "admitted"
      and an entry at 0 is trimmed at once, so two requests pass a limit of one. */
  lemma TimestampZeroIsNotCounted(a: string, b: string)
    requires a != b
    ensures var l := Step(Step(FRESH, CheckRpm(1, 0, a)), CheckRpm(1, 0, b));
            |InWindow(l.history, 0)| == 2
  {
    var e, f := Entry(0, a), Entry(0, b);
    assert Without([], a) == [] && Without([], b) == [];
    assert ZAdd([], e) == [e] && ZAdd([], f) == [f];
    assert Step(FRESH, CheckRpm(1, 0, a)) == Ledger([e], [e], 0, 0, KEY_TTL);
    AboveNothing([e], 0);
    var l := Step(Ledger([e], [e], 0, 0, KEY_TTL), CheckRpm(1, 0, b));
    assert l.history == [e] + [f];
    BothInWindow(e, f);
  }

  lemma BothInWindow(e: Entry, f: Entry)
    requires e.score == 0 && f.score == 0
    ensures InWindow([e] + [f], 0) == [e] + [f]
  {
    hide Above, UpTo;
    AboveAppend([], e, -60000);
    AboveAppend([e], f, -60000);
    assert [] + [e] == [e];
    AboveNothing([], -60000);
    UpToAll([e] + [f], 0);
  }

  // ---- tokens per minute ----------------------------------------------------

  /** The leading digits before the first colon, as `^(%d+):` captures them. */
  function TokensOf(member: string): Option<nat> {
    var d := DigitPrefix(member);
    if 0 < |d| < |member| && member[|d|] == ':' then ParseDecimal(d) else None
  }

  function DigitPrefix(s: string): (d: string)
    ensures d <= s
  {
    if |s| > 0 && '0' <= s[0] <= '9' then [s[0]] + DigitPrefix(s[1..]) else []
  }

  lemma {:induction false} DigitPrefixOf(d: string, rest: string)
    requires forall c <- d :: '0' <= c <= '9'
    requires |rest| > 0 && !('0' <= rest[0] <= '9')
    ensures DigitPrefix(d + rest) == d
  {
    if |d| > 0 {
      assert d[0] in d && d == [d[0]] + d[1..];
      assert forall c <- d[1..] :: c in d;
      DigitPrefixOf(d[1..], rest);
      assert (d + rest)[1..] == d[1..] + rest && (d + rest)[0] == d[0];
    } else {
      assert d + rest == rest;
    }
  }

  /** The script reads back the token count that was recorded. */
  lemma TokensRoundTrip(tokens: nat, id: string)
    ensures TokensOf(TpmMember(tokens, id)) == Some(tokens)
  {
    var d := Decimal(tokens);
    assert TpmMember(tokens, id) == d + (":" + id);
    DigitPrefixOf(d, ":" + id);
    ParseOfDecimal(tokens);
  }

  function TokenSum(z: SortedSet): nat {
    if |z| == 0 then 0
    else TokenSum(z[..|z| - 1]) + TokensOf(z[|z| - 1].member).GetOr(0)
  }

  /** The token check, too, decides as the whole history would. */
  lemma TpmDecidesByHistory(calls: seq<Call>, now: nat)
    requires LegalRun(calls) && Legal(Run(calls), CheckTpm(0, now))
    ensures TokenSum(Trim(Run(calls), now).entries) == TokenSum(Above(Run(calls).history, now - WINDOW))
  {
    RunSound(calls);
    TrimSound(Run(calls), now);
    SameAbove(Run(calls).history, now);
  }

  lemma TokensAboveAppend(z: SortedSet, e: Entry, c: int)
    ensures TokenSum(Above(z + [e], c))
            == TokenSum(Above(z, c)) + if e.score > c then TokensOf(e.member).GetOr(0) else 0
  {
    hide Above, TokensOf;
    AboveAppend(z, e, c);
    TokenSumAppend(Above(z, c), e);
  }

  lemma {:induction false} TokenSumShrinks(z: SortedSet, c: int, d: int)
    requires c <= d
    ensures TokenSum(Above(z, d)) <= TokenSum(Above(z, c))
  {
    hide TokensOf, TokenSum, Above;
    if |z| > 0 {
      var init, last := z[..|z| - 1], z[|z| - 1];
      assert init + [last] == z;
      TokenSumShrinks(init, c, d);
      TokensAboveAppend(init, last, c);
      TokensAboveAppend(init, last, d);
    } else {
      AboveNothing(z, c);
      AboveNothing(z, d);
    }
  }

  lemma TokenSumAppend(z: SortedSet, e: Entry)
    ensures TokenSum(z + [e]) == TokenSum(z) + TokensOf(e.member).GetOr(0)
  {
    assert (z + [e])[..|z|] == z;
  }

  /** Tokens recorded after the first `k` calls. */
  function RecordedSince(calls: seq<Call>, k: nat): nat {
    if |calls| <= k then 0
    else
      var last := calls[|calls| - 1];
      RecordedSince(calls[..|calls| - 1], k) + if last.RecordTpm? then last.tokens else 0
  }

  /** The calls the program makes on a key for tokens. */
  ghost predicate TokenKey(calls: seq<Call>) {
    forall c <- calls :: !c.CheckRpm?
  }

  /** In a run, what a window can hold grows only by what is recorded. */
  lemma {:induction false} TokensGrowByRecordings(calls: seq<Call>, k: nat, c: int)
    requires k <= |calls| && TokenKey(calls)
    ensures TokenSum(Above(Run(calls).history, c)) <= TokenSum(Above(Run(calls[..k]).history, c)) + RecordedSince(calls, k)
    decreases |calls|
  {
    hide Above, TokensOf, TokenSum;
    if |calls| == k {
      assert calls[..k] == calls;
    } else {
      var init, last := calls[..|calls| - 1], calls[|calls| - 1];
      assert last in calls && forall x <- init :: x in calls;
      assert init[..k] == calls[..k];
      TokensGrowByRecordings(init, k, c);
      if last.RecordTpm? {
        var e := Entry(last.now, TpmMember(last.tokens, last.id));
        AboveAppend(Run(init).history, e, c);
        TokenSumAppend(Above(Run(init).history, c), e);
        TokensRoundTrip(last.tokens, last.id);
      }
    }
  }

  /** After a check that passed, whatever is called next and however late a response is
      recorded, every window that ends at the check or later holds fewer tokens than the
      limit plus what was recorded since. */
  lemma TpmOvershoot(calls: seq<Call>, k: nat, at: nat)
    requires LegalRun(calls) && TokenKey(calls) && k < |calls| && calls[k].CheckTpm?
    requires TokenSum(Trim(Run(calls[..k]), calls[k].now).entries) < calls[k].limit
    requires calls[k].now <= at
    ensures TokenSum(InWindow(Run(calls).history, at)) < calls[k].limit + RecordedSince(calls, k)
  {
    hide TokensOf, TokenSum, Above, UpTo, InWindow, Run, LegalRun, Legal;
    var now, before := calls[k].now, calls[..k];
    LegalPrefix(calls, k);
    CheckAtIsLegal(calls, k);
    TpmDecidesByHistory(before, now);
    TokensGrowByRecordings(calls, k, at - WINDOW);
    TokenSumShrinks(Run(before).history, now - WINDOW, at - WINDOW);
    WindowTokens(Run(calls).history, at);
  }

  lemma WindowTokens(h: SortedSet, at: nat)
    ensures TokenSum(InWindow(h, at)) <= TokenSum(Above(h, at - WINDOW))
  {
    hide TokensOf, Above;
    UpToTokens(Above(h, at - WINDOW), at);
  }

  lemma {:induction false} UpToTokens(z: SortedSet, t: nat)
    ensures TokenSum(UpTo(z, t)) <= TokenSum(z)
  {
    hide TokensOf;
    if |z| > 0 {
      UpToTokens(z[..|z| - 1], t);
      TokenSumAppend(UpTo(z[..|z| - 1], t), z[|z| - 1]);
    }
  }

  lemma {:induction false} LegalPrefix(calls: seq<Call>, k: nat)
    requires LegalRun(calls) && k <= |calls|
    ensures LegalRun(calls[..k])
    decreases |calls|
  {
    hide Legal;
    if k == |calls| {
      assert calls[..k] == calls;
    } else {
      var init := calls[..|calls| - 1];
      LegalPrefix(init, k);
      assert init[..k] == calls[..k];
    }
  }

  lemma CheckAtIsLegal(calls: seq<Call>, k: nat)
    requires LegalRun(calls) && k < |calls| && calls[k].CheckTpm?
    ensures Legal(Run(calls[..k]), CheckTpm(0, calls[k].now))
  {
    LegalPrefix(calls, k + 1);
    assert calls[..k + 1][..k] == calls[..k];
  }

  /** Tokens that the calls recorded after time `c`. */
  function RecordedAfter(calls: seq<Call>, c: int): nat {
    if |calls| == 0 then 0
    else
      RecordedAfter(calls[..|calls| - 1], c)
      + match calls[|calls| - 1]
        case RecordTpm(now, tokens, _) => if c < now then tokens else 0
        case _ => 0
  }

  /** What the window holds is what was recorded in it, read back from the members. */
  lemma {:induction false} WindowHoldsRecordings(calls: seq<Call>, c: int)
    requires TokenKey(calls)
    ensures TokenSum(Above(Run(calls).history, c)) == RecordedAfter(calls, c)
    decreases |calls|
  {
    hide Above, TokensOf, TokenSum, TpmMember;
    if |calls| == 0 {
      NoTokens(c);
    } else {
      var init, last := calls[..|calls| - 1], calls[|calls| - 1];
      assert last in calls && forall x <- init :: x in calls;
      WindowHoldsRecordings(init, c);
      if last.RecordTpm? {
        TokensAboveAppend(Run(init).history, Entry(last.now, TpmMember(last.tokens, last.id)), c);
        TokensRoundTrip(last.tokens, last.id);
      }
    }
  }

  lemma NoTokens(c: int)
    ensures TokenSum(Above([], c)) == 0
  {
  }

  // ---- the scripts ----------------------------------------------------------

  /** The loop of the token script over the members. */
  method SumTokens(z: SortedSet) returns (total: nat)
    ensures total == TokenSum(z)
  {
    total := 0;
    var k := 0;
    while k < |z|
      invariant 0 <= k <= |z| && total == TokenSum(z[..k])
    {
      assert z[..k + 1][..k] == z[..k];
      var tokens := TokensOf(z[k].member);
      if tokens.Some? {
        total := total + tokens.value;
      }
      k := k + 1;
    }
    assert z[..k] == z;
  }

  datatype Verdict = Allowed | RetryAfter(secs: nat)

  /** The oldest addition in the minute before `now`, or `now` if there is none. */
  ghost predicate OldestLive(h: SortedSet, now: nat, oldest: nat) {
    if exists e <- h :: now - 60000 < e.score
    then (exists e <- h :: e.score == oldest) && now - 60000 < oldest
         && forall e <- h :: now - 60000 < e.score ==> oldest <= e.score
    else oldest == now
  }

  /** Whole seconds until an addition at `oldest` is a minute old, but at least one. */
  predicate SecondsUntilFree(secs: nat, oldest: nat, now: nat) {
    var ms := oldest + 60000 - now;
    if ms < 2000 then secs == 1 else 1000 * secs <= ms < 1000 * (secs + 1)
  }

  lemma RetryAfterIsSeconds(oldest: nat, now: nat)
    requires now - WINDOW < oldest
    ensures SecondsUntilFree(RetryAfterSecs(oldest, now), oldest, now)
  {
  }

  lemma FirstOfLive(h: SortedSet, z: SortedSet, now: nat)
    requires Ascending(z)
    requires forall e :: e in z <==> e in h && now - 60000 < e.score
    ensures OldestLive(h, now, if |z| > 0 then z[0].score else now)
  {
    forall e | e in z
      ensures |z| > 0 && z[0].score <= e.score
    {
      var k :| 0 <= k < |z| && z[k] == e;
    }
    assert |z| > 0 ==> z[0] in z;
  }

  lemma LiveIs(calls: seq<Call>, now: nat)
    requires LegalRun(calls) && Run(calls).clock <= now && 0 < now
    ensures var h := Run(calls).history;
            Ascending(h) && Trim(Run(calls), now).entries == Above(h, now - 60000)
  {
    RunSound(calls);
    TrimSound(Run(calls), now);
    SameAbove(Run(calls).history, now);
  }

  lemma AboveExactly(h: SortedSet, c: int)
    requires Ascending(h)
    ensures Ascending(Above(h, c)) && forall e :: e in Above(h, c) <==> e in h && c < e.score
  {
    AboveIsSubset(h, c);
    hide Above, Ascending;
    forall e | e in h && c < e.score
      ensures e in Above(h, c)
    {
      AboveHas(h, c, e);
    }
  }

  lemma FirstIsOldest(calls: seq<Call>, now: nat)
    requires LegalRun(calls) && Run(calls).clock <= now && 0 < now
    ensures var z := Trim(Run(calls), now).entries; var h := Run(calls).history;
            && OldestLive(h, now, if |z| > 0 then z[0].score else now)
            && |z| == |set i | 0 <= i < |h| && now - 60000 < h[i].score|
  {
    hide *;
    var h := Run(calls).history;
    LiveIs(calls, now);
    AboveExactly(h, now - 60000);
    AboveCounts(h, now - 60000);
    FirstOfLive(h, Above(h, now - 60000), now);
    assert (set i | 0 <= i < |h| && h[i].score > now - 60000) == set i | 0 <= i < |h| && now - 60000 < h[i].score;
  }

  /** What a check on the trimmed set decides by. */
  lemma CheckFacts(calls: seq<Call>, now: nat)
    requires LegalRun(calls) && Run(calls).clock <= now && 0 < now
    ensures var z := Trim(Run(calls), now).entries; var h := Run(calls).history;
            var first := if |z| > 0 then z[0].score else now;
            && z == Above(Run(calls).entries, Cutoff(now))
            && 0 < first && OldestLive(h, now, first)
            && 1 <= RetryAfterSecs(first, now) <= 60 && SecondsUntilFree(RetryAfterSecs(first, now), first, now)
            && |z| == |set i | 0 <= i < |h| && now - 60000 < h[i].score|
            && (TokenKey(calls) ==> TokenSum(z) == RecordedAfter(calls, now - 60000))
  {
    hide TokenSum, RecordedAfter, OldestLive, Above, Run, LegalRun, RetryAfterSecs, SecondsUntilFree, TokenKey, Trim;
    TrimmedFacts(calls, now);
    FirstIsOldest(calls, now);
    var z := Trim(Run(calls), now).entries;
    FirstIsRecent(calls, now);
    RetryAfterIsSeconds(if |z| > 0 then z[0].score else now, now);
    if TokenKey(calls) {
      WindowHoldsRecordings(calls, now - 60000);
    }
  }

  lemma FirstIsRecent(calls: seq<Call>, now: nat)
    requires LegalRun(calls) && Run(calls).clock <= now && 0 < now
    ensures var z := Trim(Run(calls), now).entries; |z| > 0 ==> now - WINDOW < z[0].score
  {
    RunSound(calls);
    TrimSound(Run(calls), now);
    AboveIsSubset(Run(calls).history, Cutoff(now));
    var z := Trim(Run(calls), now).entries;
    assert |z| > 0 ==> z[0] in z;
  }

  lemma {:induction false} AboveHas(h: SortedSet, c: int, e: Entry)
    requires e in h && e.score > c
    ensures e in Above(h, c)
  {
    if e != h[|h| - 1] {
      AboveHas(h[..|h| - 1], c, e);
    }
  }

  lemma TrimOnly(l: Ledger, limit: nat, now: nat)
    ensures Step(l, CheckTpm(limit, now)) == Trim(l, now)
    ensures Trim(l, now).entries == Above(l.entries, Cutoff(now)) && Trim(l, now).history == l.history
  {
  }

  lemma StepRpm(l: Ledger, limit: nat, now: nat, member: string)
    ensures var z := Trim(l, now).entries; var after := Step(l, CheckRpm(limit, now, member)); var e := Entry(now, member);
            && z == Above(l.entries, Cutoff(now))
            && after.entries == (if |z| < limit then ZAdd(z, e) else z)
            && (|z| < limit ==> after.history == l.history + [e] && after.expiry == now + 120000)
            && (|z| >= limit ==> after.history == l.history && after.expiry == l.expiry)
  {
    hide Above, ZAdd, Cutoff;
  }

  class RedisWindow {
    var entries: SortedSet
    ghost var ledger: Ledger
    ghost var calls: seq<Call>

    ghost predicate Valid()
      reads this
    {
      LegalRun(calls) && Run(calls) == ledger && entries == ledger.entries
    }

    constructor ()
      ensures Valid() && ledger == FRESH && calls == []
    {
      entries, ledger, calls := [], FRESH, [];
    }

    ghost method Record(call: Call)
      requires LegalRun(calls) && Run(calls) == ledger && Legal(ledger, call)
      requires entries == Step(ledger, call).entries
      modifies this`ledger, this`calls
      ensures Valid() && calls == old(calls) + [call] && ledger == Step(old(ledger), call)
    {
      var all := calls + [call];
      assert all[..|calls|] == calls;
      calls, ledger := all, Step(ledger, call);
    }

    /** Admits a request exactly while fewer than `limit` were admitted in the last
        sixty seconds. */
    method CheckRpm(limit: nat, now: nat, member: string) returns (v: Verdict)
      requires Valid() && Legal(ledger, Call.CheckRpm(limit, now, member))
      modifies this
      ensures Valid() && calls == old(calls) + [Call.CheckRpm(limit, now, member)]
      ensures ledger == Step(old(ledger), Call.CheckRpm(limit, now, member))
      ensures var h := old(ledger.history);
              v == Allowed <==> |set i | 0 <= i < |h| && now - 60000 < h[i].score| < limit
      ensures v == Allowed ==> ledger.history == old(ledger.history) + [Entry(now, member)] && ledger.expiry == now + 120000
      ensures v != Allowed ==> ledger.history == old(ledger.history) && ledger.expiry == old(ledger.expiry)
      ensures v.RetryAfter? ==> 1 <= v.secs <= 60
      ensures v.RetryAfter? ==> exists oldest :: OldestLive(old(ledger.history), now, oldest)
                                                 && SecondsUntilFree(v.secs, oldest, now)
    {
      CheckFacts(calls, now);
      StepRpm(ledger, limit, now, member);
      hide HasMember, RetryAfterSecs, Above, ZAdd, LegalRun, Run, Cutoff, Trim, Step, OldestLive, SecondsUntilFree;
      var result: nat;
      entries := Above(entries, Cutoff(now));
      var count := |entries|;
      if count >= limit {
        if |entries| > 0 {
          result := entries[0].score;
        } else {
          result := now;
        }
      } else {
        entries := ZAdd(entries, Entry(now, member));
        result := 0;
      }
      v := if result == 0 then Allowed else RetryAfter(RetryAfterSecs(result, now));
      Record(Call.CheckRpm(limit, now, member));
    }

    /** Allows while the tokens recorded in the last sixty seconds are below `limit`. */
    method CheckTpm(limit: nat, now: nat) returns (v: Verdict)
      requires Valid() && Legal(ledger, Call.CheckTpm(limit, now))
      modifies this
      ensures Valid() && calls == old(calls) + [Call.CheckTpm(limit, now)]
      ensures ledger == Step(old(ledger), Call.CheckTpm(limit, now)) && ledger.history == old(ledger.history)
      ensures TokenKey(old(calls)) ==> (v == Allowed <==> RecordedAfter(old(calls), now - 60000) < limit)
      ensures v.RetryAfter? ==> 1 <= v.secs <= 60
      ensures v.RetryAfter? ==> exists oldest :: OldestLive(old(ledger.history), now, oldest)
                                                 && SecondsUntilFree(v.secs, oldest, now)
    {
      CheckFacts(calls, now);
      TrimOnly(ledger, limit, now);
      hide HasMember, RetryAfterSecs, Sound, Above, TokensOf, ZAdd, LegalRun, Run, Cutoff, Trim, Step;
      hide OldestLive, SecondsUntilFree, TokenSum, RecordedAfter, TokenKey;
      var result: nat;
      entries := Above(entries, Cutoff(now));
      var total := SumTokens(entries);
      if total >= limit {
        if |entries| > 0 {
          result := entries[0].score;
        } else {
          result := now;
        }
      } else {
        result := 0;
      }
      v := if result == 0 then Allowed else RetryAfter(RetryAfterSecs(result, now));
      Record(Call.CheckTpm(limit, now));
    }

    /** Redis drops the key once its time to live is over. */
    method Expire(now: nat)
      requires Valid() && Legal(ledger, KeyExpires(now))
      modifies this
      ensures Valid() && calls == old(calls) + [KeyExpires(now)]
      ensures ledger == Step(old(ledger), KeyExpires(now)) && entries == []
    {
      entries := [];
      Record(KeyExpires(now));
    }

    method RecordTpm(now: nat, tokens: nat, id: string)
      requires Valid() && Legal(ledger, Call.RecordTpm(now, tokens, id))
      modifies this
      ensures Valid() && calls == old(calls) + [Call.RecordTpm(now, tokens, id)]
      ensures ledger == Step(old(ledger), Call.RecordTpm(now, tokens, id))
      ensures ledger.history == old(ledger.history) + [Entry(now, Decimal(tokens) + ":" + id)]
      ensures ledger.expiry == now + 120000
    {
      entries := ZAdd(entries, Entry(now, TpmMember(tokens, id)));
      Record(Call.RecordTpm(now, tokens, id));
    }
  }

  /** After trimming, the stored set is the last sixty seconds of the history. */
  lemma TrimmedFacts(calls: seq<Call>, now: nat)
    requires LegalRun(calls) && Run(calls).clock <= now && 0 < now
    ensures var z := Trim(Run(calls), now).entries;
            && z == Above(Run(calls).entries, Cutoff(now)) == Above(Run(calls).history, now - WINDOW)
            && (|z| > 0 ==> 0 < z[0].score && 1 <= RetryAfterSecs(z[0].score, now) <= 60)
            && 1 <= RetryAfterSecs(now, now) <= 60
  {
    RunSound(calls);
    TrimSound(Run(calls), now);
    SameAbove(Run(calls).history, now);
    AboveIsSubset(Run(calls).history, Cutoff(now));
    var z := Trim(Run(calls), now).entries;
    assert |z| > 0 ==> z[0] in z;
  }
}
