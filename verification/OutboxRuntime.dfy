/**
 The runtime facade over the outbox table, run without interference: claiming a due row, ending
 a claim, and the two sweeps. What other processes may do in between is the subject of
 OutboxProtocol.
 */
module OutboxRuntime {
  import opened Wrappers
  import opened Text
  import opened Outbox
  import opened OutboxStore
  import OutboxProtocol

  datatype ClaimResult = ClaimResult(claimed: bool, outbox: Option<Row>, reason: Option<string>)

  datatype RequeueResult = RequeueResult(requeued: bool, outbox: Option<Row>, reason: Option<string>)

  datatype SweepResult = SweepResult(
    scanned: nat, requeued: seq<RequeueResult>, refused: seq<RequeueResult>, deadLettered: seq<Row>)

  function StatusValue(s: Status): string {
    match s
    case Pending => "pending"
    case Claimed => "claimed"
    case Dispatched => "dispatched"
    case DeadLettered => "dead_lettered"
  }

  /** The claim a worker makes after reading the row. */
  function ClaimAfter(row: Row, workerId: string, now: int): Write {
    ClaimFor(row.outboxId, workerId, row.attemptCount + 1, now)
  }

  // ---------- What the sweeps look for ----------

  function StaleQuery(staleBefore: int, limit: int, tenantId: Option<string>): Query {
    Query(None, None, tenantId, Some(Claimed), None, Some(staleBefore), limit, 0)
  }

  function DueQuery(now: int, limit: int, tenantId: Option<string>): Query {
    Query(None, None, tenantId, Some(Pending), Some(now), None, limit, 0)
  }

  function Requeued(row: Row, staleBefore: int, requeuedAt: int, reason: string): Row {
    After(row, RequeueStale(staleBefore, requeuedAt, reason, row.metadata))
  }

  /** An exhausted row after the sweep has claimed it and given it up. */
  function GivenUp(row: Row, now: int, reason: string): Row {
    var claimed := After(row, ClaimAfter(row, RECONCILER, now));
    var claimId := Uuid5(ClaimSeed(row.outboxId, RECONCILER, row.attemptCount + 1));
    After(claimed, DeadLetter(claimId, reason, now, row.metadata))
  }

  /** The rows of the first `n` entries of the page are changed by `change`, all others are as before. */
  ghost predicate ChangedOnPage(t: Table, page: seq<Row>, n: nat, change: Row -> Row, t': Table)
    requires n <= |page|
  {
    && t'.Keys == t.Keys
    && (forall id :: id in t ==> t'[id] == if OnPage(page[..n], id) then change(t[id]) else t[id])
  }

  /** The ids on a page are different ones. */
  lemma OnPrefix(page: seq<Row>, n: nat, id: Uuid)
    requires n < |page|
    requires forall i, j :: 0 <= i < j < |page| ==> page[i].outboxId != page[j].outboxId
    ensures OnPage(page[..n + 1], id) <==> OnPage(page[..n], id) || page[n].outboxId == id
    ensures !OnPage(page[..n], page[n].outboxId)
  {
    assert page[..n + 1] == page[..n] + [page[n]];
    PageGrows(page[..n], page[n], id);
  }

  /** How a row comes out of the dead-letter sweep. */
  function GiveUpIfExhausted(l: Limits, now: int, reason: string): Row -> Row {
    row => if Exhausted(l, row, now) then GivenUp(row, now, reason) else row
  }

  function RequeueWith(staleBefore: int, requeuedAt: int, reason: string): Row -> Row {
    row => Requeued(row, staleBefore, requeuedAt, reason)
  }

  /** The rows a sweep gave up, in page order. */
  function GivenUpRows(l: Limits, page: seq<Row>, now: int, reason: string): seq<Row> {
    if page == [] then []
    else
      var last := page[|page| - 1];
      GivenUpRows(l, page[..|page| - 1], now, reason) +
        if Exhausted(l, last, now) then [GivenUp(last, now, reason)] else []
  }

  /** The results of the stale sweep: every row of the page, freed. */
  function RequeuedResults(page: seq<Row>, staleBefore: int, requeuedAt: int, reason: string): seq<RequeueResult> {
    if page == [] then []
    else
      RequeuedResults(page[..|page| - 1], staleBefore, requeuedAt, reason) +
      [RequeueResult(true, Some(Requeued(page[|page| - 1], staleBefore, requeuedAt, reason)), None)]
  }

  /** The next row of the page is still as it was listed. */
  lemma NextIsUntouched(t: Table, page: seq<Row>, i: nat, change: Row -> Row, before: Table)
    requires i < |page| && ChangedOnPage(t, page, i, change, before)
    requires forall j, k :: 0 <= j < k < |page| ==> page[j].outboxId != page[k].outboxId
    requires page[i].outboxId in t && t[page[i].outboxId] == page[i]
    ensures page[i].outboxId in before && before[page[i].outboxId] == page[i]
  {
    OnPrefix(page, i, page[i].outboxId);
  }

  /** A stale row that the sweep reaches unchanged is freed. */
  lemma FreedBySweep(t: Table, row: Row, staleBefore: int, requeuedAt: int, reason: string)
    requires row.outboxId in t && t[row.outboxId] == row
    requires row.status.Claimed? && row.claimedAt.Some? && row.claimedAt.value <= staleBefore
    ensures RequeueOutcome(t, row.outboxId, staleBefore, requeuedAt, reason) ==
      (t[row.outboxId := Requeued(row, staleBefore, requeuedAt, reason)],
       RequeueResult(true, Some(Requeued(row, staleBefore, requeuedAt, reason)), None))
  {
  }

  /** The table and the result after the stale sweep has visited one row. */
  function RequeueOutcome(
    t: Table, id: Uuid, staleBefore: int, requeuedAt: int, reason: string): (Table, RequeueResult)
  {
    var w := RequeueStale(staleBefore, requeuedAt, reason, CurrentMetadata(t, id));
    var t' := Update(t, id, w);
    (t', RequeueResult(Hits(t, id, w), if id in t' then Some(t'[id]) else None,
                       if Hits(t, id, w) then None else Some("outbox_not_stale")))
  }

  /** The page of the stale sweep in columns: the stale claims, as many as the limit allows. */
  lemma StalePage(t: Table, page: seq<Row>, staleBefore: int, limit: int, tenantId: Option<string>)
    requires IsPage(t, StaleQuery(staleBefore, limit, tenantId), page)
    ensures forall i :: 0 <= i < |page| ==>
      && page[i].status == Claimed && page[i].claimedAt.Some? && page[i].claimedAt.value <= staleBefore
      && (tenantId.Some? ==> page[i].tenantId == tenantId.value)
    ensures
      var stale := set id | id in t
        && t[id].status == Claimed && t[id].claimedAt.Some? && t[id].claimedAt.value <= staleBefore
        && (tenantId.Some? ==> t[id].tenantId == tenantId.value);
      && stale == Matching(t, StaleQuery(staleBefore, limit, tenantId))
      && |page| == if |stale| < limit then |stale| else limit
  {
    PageInColumns(t, StaleQuery(staleBefore, limit, tenantId), page);
    TotalInColumns(t, StaleQuery(staleBefore, limit, tenantId), page);
  }

  /** When the limit covers the matches, a sweep changes exactly those. */
  lemma MatchesAreChanged(t: Table, q: Query, page: seq<Row>, change: Row -> Row, t': Table)
    requires IsPage(t, q, page) && q.offset == 0 && |Matching(t, q)| <= q.limit
    requires ChangedOnPage(t, page, |page|, change, t')
    ensures t'.Keys == t.Keys
    ensures forall id :: id in t ==> t'[id] == if id in Matching(t, q) then change(t[id]) else t[id]
  {
    PageCoversMatches(t, q, page);
    assert page[..|page|] == page;
  }

  /** When the limit covers the stale claims, the sweep leaves none. */
  lemma NoStaleLeft(t: Table, page: seq<Row>, staleBefore: int, requeuedAt: int, limit: int,
                    tenantId: Option<string>, reason: string, t': Table)
    requires IsPage(t, StaleQuery(staleBefore, limit, tenantId), page)
    requires ChangedOnPage(t, page, |page|, RequeueWith(staleBefore, requeuedAt, reason), t')
    requires
      var stale := set id | id in t
        && t[id].status == Claimed && t[id].claimedAt.Some? && t[id].claimedAt.value <= staleBefore
        && (tenantId.Some? ==> t[id].tenantId == tenantId.value);
      |stale| <= limit
    ensures forall id :: id in t' ==>
      !(&& t'[id].status == Claimed && t'[id].claimedAt.Some? && t'[id].claimedAt.value <= staleBefore
        && (tenantId.Some? ==> t'[id].tenantId == tenantId.value))
  {
    StalePage(t, page, staleBefore, limit, tenantId);
    MatchesAreChanged(t, StaleQuery(staleBefore, limit, tenantId), page,
                      RequeueWith(staleBefore, requeuedAt, reason), t');
  }

  /** The page of the dead-letter sweep in columns: the due rows, as many as the limit allows. */
  lemma DuePage(t: Table, page: seq<Row>, now: int, limit: int, tenantId: Option<string>)
    requires IsPage(t, DueQuery(now, limit, tenantId), page)
    ensures forall i :: 0 <= i < |page| ==>
      && page[i].status == Pending && (page[i].nextAttemptAt.None? || page[i].nextAttemptAt.value <= now)
      && (tenantId.Some? ==> page[i].tenantId == tenantId.value)
    ensures
      var due := set id | id in t
        && t[id].status == Pending && (t[id].nextAttemptAt.None? || t[id].nextAttemptAt.value <= now)
        && (tenantId.Some? ==> t[id].tenantId == tenantId.value);
      && due == Matching(t, DueQuery(now, limit, tenantId))
      && |page| == if |due| < limit then |due| else limit
  {
    PageInColumns(t, DueQuery(now, limit, tenantId), page);
    TotalInColumns(t, DueQuery(now, limit, tenantId), page);
  }

  /** When the limit covers the due rows, the sweep leaves no exhausted one. */
  lemma NoExhaustedLeft(l: Limits, t: Table, page: seq<Row>, now: int, limit: int,
                        tenantId: Option<string>, reason: string, t': Table)
    requires IsPage(t, DueQuery(now, limit, tenantId), page)
    requires ChangedOnPage(t, page, |page|, GiveUpIfExhausted(l, now, reason), t')
    requires
      var due := set id | id in t
        && t[id].status == Pending && (t[id].nextAttemptAt.None? || t[id].nextAttemptAt.value <= now)
        && (tenantId.Some? ==> t[id].tenantId == tenantId.value);
      |due| <= limit
    ensures forall id :: id in t' ==>
      !(&& t'[id].status == Pending && (t'[id].nextAttemptAt.None? || t'[id].nextAttemptAt.value <= now)
        && (tenantId.Some? ==> t'[id].tenantId == tenantId.value)
        && (t'[id].attemptCount >= l.maxAttempts || t'[id].createdAt + l.maxAgeSeconds <= now))
  {
    DuePage(t, page, now, limit, tenantId);
    MatchesAreChanged(t, DueQuery(now, limit, tenantId), page, GiveUpIfExhausted(l, now, reason), t');
  }

  /** What the stale sweep does to the rows and reports, in columns. */
  lemma FreedInColumns(t: Table, page: seq<Row>, staleBefore: int, requeuedAt: int, reason: string, t': Table)
    requires forall i :: 0 <= i < |page| ==> page[i].outboxId in t && t[page[i].outboxId] == page[i]
    requires ChangedOnPage(t, page, |page|, RequeueWith(staleBefore, requeuedAt, reason), t')
    ensures t'.Keys == t.Keys
    ensures forall i :: 0 <= i < |page| ==> t'[page[i].outboxId] == page[i].(
      status := Pending, claimId := None, workerId := None, claimedAt := None, lastError := Some(reason),
      metadata := page[i].metadata[ReconcilerReason := Text(reason)][ReconcilerRequeuedAt := Time(requeuedAt)])
    ensures forall id :: id in t && (forall i :: 0 <= i < |page| ==> page[i].outboxId != id) ==> t'[id] == t[id]
    ensures |RequeuedResults(page, staleBefore, requeuedAt, reason)| == |page|
    ensures forall i :: 0 <= i < |page| ==>
      RequeuedResults(page, staleBefore, requeuedAt, reason)[i] ==
        RequeueResult(true, Some(t'[page[i].outboxId]), None)
  {
    assert page[..|page|] == page;
    forall i | 0 <= i < |page|
      ensures t'[page[i].outboxId] == Requeued(page[i], staleBefore, requeuedAt, reason)
    {
      assert OnPage(page, page[i].outboxId);
    }
    ResultsInOrder(page, staleBefore, requeuedAt, reason);
  }

  lemma {:induction false} ResultsInOrder(page: seq<Row>, staleBefore: int, requeuedAt: int, reason: string)
    ensures |RequeuedResults(page, staleBefore, requeuedAt, reason)| == |page|
    ensures forall i :: 0 <= i < |page| ==>
      RequeuedResults(page, staleBefore, requeuedAt, reason)[i] ==
        RequeueResult(true, Some(Requeued(page[i], staleBefore, requeuedAt, reason)), None)
  {
    if page != [] {
      ResultsInOrder(page[..|page| - 1], staleBefore, requeuedAt, reason);
    }
  }

  /** What the dead-letter sweep does to the rows and reports, in columns. */
  lemma GivenUpInColumns(l: Limits, t: Table, page: seq<Row>, now: int, reason: string, t': Table)
    requires forall i :: 0 <= i < |page| ==> page[i].outboxId in t && t[page[i].outboxId] == page[i]
    requires ChangedOnPage(t, page, |page|, GiveUpIfExhausted(l, now, reason), t')
    ensures t'.Keys == t.Keys
    ensures forall i :: 0 <= i < |page| ==>
      var exhausted := page[i].attemptCount >= l.maxAttempts || page[i].createdAt + l.maxAgeSeconds <= now;
      t'[page[i].outboxId] == if !exhausted then page[i] else page[i].(
        status := DeadLettered, claimedAt := Some(now), workerId := Some(RECONCILER),
        claimId := Some(Uuid5(ClaimSeed(page[i].outboxId, RECONCILER, page[i].attemptCount + 1))),
        attemptCount := page[i].attemptCount + 1, lastError := Some(reason),
        metadata := page[i].metadata[DeadLetteredAt := Time(now)][DeadLetterReason := Text(reason)])
    ensures forall id :: id in t && (forall i :: 0 <= i < |page| ==> page[i].outboxId != id) ==> t'[id] == t[id]
  {
    assert page[..|page|] == page;
    GivenUpStands(l, t, page, now, reason, t');
  }

  lemma GivenUpStands(l: Limits, t: Table, page: seq<Row>, now: int, reason: string, t': Table)
    requires forall i :: 0 <= i < |page| ==> page[i].outboxId in t && t[page[i].outboxId] == page[i]
    requires ChangedOnPage(t, page, |page|, GiveUpIfExhausted(l, now, reason), t')
    ensures forall i :: 0 <= i < |page| ==> t'[page[i].outboxId] == GiveUpIfExhausted(l, now, reason)(page[i])
  {
    assert page[..|page|] == page;
    forall i | 0 <= i < |page|
      ensures t'[page[i].outboxId] == GiveUpIfExhausted(l, now, reason)(page[i])
    {
      assert OnPage(page, page[i].outboxId);
    }
  }

  /** `chosen` lists the positions of the exhausted rows of the page, in order. */
  ghost predicate Exhausts(l: Limits, page: seq<Row>, now: int, chosen: seq<int>) {
    && (forall k :: 0 <= k < |chosen| ==> 0 <= chosen[k] < |page|)
    && (forall k, m :: 0 <= k < m < |chosen| ==> chosen[k] < chosen[m])
    && (forall i :: 0 <= i < |page| ==>
          (i in chosen <==> page[i].attemptCount >= l.maxAttempts || page[i].createdAt + l.maxAgeSeconds <= now))
  }

  /** The report of the dead-letter sweep lists the exhausted rows of the page, in page order, as they are now. */
  lemma {:induction false} ReportInOrder(l: Limits, page: seq<Row>, now: int, reason: string) returns (chosen: seq<int>)
    ensures Exhausts(l, page, now, chosen)
    ensures |GivenUpRows(l, page, now, reason)| == |chosen|
    ensures forall k :: 0 <= k < |chosen| ==>
      GivenUpRows(l, page, now, reason)[k] == GiveUpIfExhausted(l, now, reason)(page[chosen[k]])
  {
    chosen := [];
    if page != [] {
      var n := |page| - 1;
      var front := ReportInOrder(l, page[..n], now, reason);
      chosen := front + if Exhausted(l, page[n], now) then [n] else [];
      OneMoreExhausts(l, page, now, front, chosen);
      assert forall k :: 0 <= k < |front| ==> page[..n][front[k]] == page[front[k]];
    }
  }

  lemma GivenUpReport(
    l: Limits, t: Table, page: seq<Row>, now: int, reason: string, t': Table, deadLettered: seq<Row>)
    returns (chosen: seq<int>)
    requires forall i :: 0 <= i < |page| ==> page[i].outboxId in t && t[page[i].outboxId] == page[i]
    requires ChangedOnPage(t, page, |page|, GiveUpIfExhausted(l, now, reason), t')
    requires deadLettered == GivenUpRows(l, page, now, reason)
    ensures Exhausts(l, page, now, chosen) && |deadLettered| == |chosen|
    ensures forall k :: 0 <= k < |chosen| ==> deadLettered[k] == t'[page[chosen[k]].outboxId]
  {
    chosen := ReportInOrder(l, page, now, reason);
    GivenUpStands(l, t, page, now, reason, t');
  }

  lemma OneMoreExhausts(l: Limits, page: seq<Row>, now: int, front: seq<int>, chosen: seq<int>)
    requires page != [] && Exhausts(l, page[..|page| - 1], now, front)
    requires chosen == front + if Exhausted(l, page[|page| - 1], now) then [|page| - 1] else []
    ensures Exhausts(l, page, now, chosen)
  {
    var n := |page| - 1;
    forall i | 0 <= i < |page|
      ensures i in chosen <==> page[i].attemptCount >= l.maxAttempts || page[i].createdAt + l.maxAgeSeconds <= now
    {
      assert i in chosen <==> i in front || (i == n && Exhausted(l, page[n], now));
      assert i < n ==> page[..n][i] == page[i];
    }
  }

  // ---------- The sweeps in terms of columns ----------

  /**
   What the stale sweep does, in terms of the columns of the table alone. The page holds stale claims
   of the tenant asked for, as many as the limit allows; each is freed and keeps all that is not about
   its claim; all other rows are as before; and when the limit covers the stale claims, none is left.
   */
  ghost predicate StaleSwept(t: Table, page: seq<Row>, staleBefore: int, requeuedAt: int, limit: int,
                             tenantId: Option<string>, reason: string, t': Table)
  {
    var stale := set id | id in t
      && t[id].status == Claimed && t[id].claimedAt.Some? && t[id].claimedAt.value <= staleBefore
      && (tenantId.Some? ==> t[id].tenantId == tenantId.value);
    && t'.Keys == t.Keys
    && |page| == (if |stale| < limit then |stale| else limit)
    && (forall i, j :: 0 <= i < j < |page| ==> page[i].outboxId != page[j].outboxId)
    && (forall i :: 0 <= i < |page| ==>
          && page[i].outboxId in t && t[page[i].outboxId] == page[i]
          && page[i].status == Claimed && page[i].claimedAt.Some? && page[i].claimedAt.value <= staleBefore
          && (tenantId.Some? ==> page[i].tenantId == tenantId.value))
    && (forall i :: 0 <= i < |page| ==> t'[page[i].outboxId] == page[i].(
          status := Pending, claimId := None, workerId := None, claimedAt := None, lastError := Some(reason),
          metadata := page[i].metadata[ReconcilerReason := Text(reason)][ReconcilerRequeuedAt := Time(requeuedAt)]))
    && (forall id :: id in t && (forall i :: 0 <= i < |page| ==> page[i].outboxId != id) ==> t'[id] == t[id])
    && (|stale| <= limit ==> forall id :: id in t' ==>
          !(&& t'[id].status == Claimed && t'[id].claimedAt.Some? && t'[id].claimedAt.value <= staleBefore
            && (tenantId.Some? ==> t'[id].tenantId == tenantId.value)))
  }

  lemma StaleSweepInColumns(t: Table, page: seq<Row>, staleBefore: int, requeuedAt: int, limit: int,
                            tenantId: Option<string>, reason: string, t': Table)
    requires IsPage(t, StaleQuery(staleBefore, limit, tenantId), page)
    requires ChangedOnPage(t, page, |page|, RequeueWith(staleBefore, requeuedAt, reason), t')
    ensures StaleSwept(t, page, staleBefore, requeuedAt, limit, tenantId, reason, t')
  {
    PageIsListed(t, StaleQuery(staleBefore, limit, tenantId), page);
    StalePage(t, page, staleBefore, limit, tenantId);
    FreedInColumns(t, page, staleBefore, requeuedAt, reason, t');
    if |Matching(t, StaleQuery(staleBefore, limit, tenantId))| <= limit {
      NoStaleLeft(t, page, staleBefore, requeuedAt, limit, tenantId, reason, t');
    }
  }

  /**
   What the dead-letter sweep does, in terms of columns. The page holds pending rows of the tenant
   asked for that are due, as many as the limit allows; of these, the rows out of attempts or over age
   end DEAD_LETTERED under a claim of the reconciler; all other rows are as before; and when the limit
   covers the due rows, no exhausted one is left.
   */
  ghost predicate ExhaustedSwept(l: Limits, t: Table, page: seq<Row>, now: int, limit: int,
                                 tenantId: Option<string>, reason: string, t': Table)
  {
    var due := set id | id in t
      && t[id].status == Pending && (t[id].nextAttemptAt.None? || t[id].nextAttemptAt.value <= now)
      && (tenantId.Some? ==> t[id].tenantId == tenantId.value);
    && t'.Keys == t.Keys
    && |page| == (if |due| < limit then |due| else limit)
    && (forall i, j :: 0 <= i < j < |page| ==> page[i].outboxId != page[j].outboxId)
    && (forall i :: 0 <= i < |page| ==>
          && page[i].outboxId in t && t[page[i].outboxId] == page[i]
          && page[i].status == Pending && (page[i].nextAttemptAt.None? || page[i].nextAttemptAt.value <= now)
          && (tenantId.Some? ==> page[i].tenantId == tenantId.value))
    && (forall i :: 0 <= i < |page| ==>
          var exhausted := page[i].attemptCount >= l.maxAttempts || page[i].createdAt + l.maxAgeSeconds <= now;
          t'[page[i].outboxId] == if !exhausted then page[i] else page[i].(
            status := DeadLettered, claimedAt := Some(now), workerId := Some(RECONCILER),
            claimId := Some(Uuid5(ClaimSeed(page[i].outboxId, RECONCILER, page[i].attemptCount + 1))),
            attemptCount := page[i].attemptCount + 1, lastError := Some(reason),
            metadata := page[i].metadata[DeadLetteredAt := Time(now)][DeadLetterReason := Text(reason)]))
    && (forall id :: id in t && (forall i :: 0 <= i < |page| ==> page[i].outboxId != id) ==> t'[id] == t[id])
    && (|due| <= limit ==> forall id :: id in t' ==>
          !(&& t'[id].status == Pending && (t'[id].nextAttemptAt.None? || t'[id].nextAttemptAt.value <= now)
            && (tenantId.Some? ==> t'[id].tenantId == tenantId.value)
            && (t'[id].attemptCount >= l.maxAttempts || t'[id].createdAt + l.maxAgeSeconds <= now)))
  }

  lemma ExhaustedSweepInColumns(l: Limits, t: Table, page: seq<Row>, now: int, limit: int,
                                tenantId: Option<string>, reason: string, t': Table)
    requires IsPage(t, DueQuery(now, limit, tenantId), page)
    requires ChangedOnPage(t, page, |page|, GiveUpIfExhausted(l, now, reason), t')
    ensures ExhaustedSwept(l, t, page, now, limit, tenantId, reason, t')
  {
    PageIsListed(t, DueQuery(now, limit, tenantId), page);
    DuePage(t, page, now, limit, tenantId);
    GivenUpInColumns(l, t, page, now, reason, t');
    if |Matching(t, DueQuery(now, limit, tenantId))| <= limit {
      NoExhaustedLeft(l, t, page, now, limit, tenantId, reason, t');
    }
  }

  class OutboxRuntime {
    const store: OutboxStore
    const limits: Limits

    constructor (store: OutboxStore, limits: Limits)
      requires ValidLimits(limits)
      ensures this.store == store && this.limits == limits
    {
      this.store := store;
      this.limits := limits;
    }

    /** The runtime for these settings; any below 1 is rejected. */
    static method Create(store: OutboxStore, maxAttempts: int, maxAgeSeconds: int, retryBaseSeconds: int)
      returns (r: Result<OutboxRuntime, string>)
      ensures r.Err? <==> maxAttempts < 1 || maxAgeSeconds < 1 || retryBaseSeconds < 1
      ensures r.Ok? ==> r.value.store == store && ValidLimits(r.value.limits)
      ensures r.Ok? ==> r.value.limits == Limits(maxAttempts, maxAgeSeconds, retryBaseSeconds)
    {
      if maxAttempts < 1 {
        return Err("max_attempts must be positive");
      }
      if maxAgeSeconds < 1 {
        return Err("max_age_seconds must be positive");
      }
      if retryBaseSeconds < 1 {
        return Err("retry_base_seconds must be positive");
      }
      var runtime := new OutboxRuntime(store, Limits(maxAttempts, maxAgeSeconds, retryBaseSeconds));
      r := Ok(runtime);
    }

    /** The row asked for, by its id or else by its ingress. */
    method FindOutbox(outboxId: Option<Uuid>, ingressId: Option<Uuid>) returns (r: Option<Row>)
      requires store.Valid()
      ensures outboxId.Some? ==> r == if outboxId.value in store.rows then Some(store.rows[outboxId.value]) else None
      ensures outboxId.None? && ingressId.Some? ==> (r.Some? <==> KnownIngress(store.rows, ingressId.value))
      ensures r.Some? ==> r.value.outboxId in store.rows && store.rows[r.value.outboxId] == r.value
    {
      r := None;
      if outboxId.Some? {
        r := store.GetOutbox(outboxId.value);
      } else if ingressId.Some? {
        r := store.GetOutboxByIngress(ingressId.value);
      }
    }

    /** Sends the claim for a row read before; a row that has moved on is reported as it is now. */
    method SubmitClaim(row: Row, workerId: string, now: int) returns (r: ClaimResult)
      requires store.Valid() && workerId != ""
      modifies store
      ensures store.Valid()
      ensures store.rows == Update(old(store.rows), row.outboxId, ClaimAfter(row, workerId, now))
      ensures r.claimed <==> Hits(old(store.rows), row.outboxId, ClaimAfter(row, workerId, now))
      ensures r.outbox == if row.outboxId in store.rows then Some(store.rows[row.outboxId]) else None
      ensures r.reason ==
        if r.claimed then None
        else if r.outbox.None? then Some("outbox_not_found")
        else Some("outbox_not_claimable:" + StatusValue(r.outbox.value.status))
    {
      var claimId := DeriveClaimId(row.outboxId, workerId, row.attemptCount + 1).value;
      var claimed := store.ClaimOutbox(row.outboxId, claimId, workerId, now);
      if claimed.Some? {
        return ClaimResult(true, claimed, None);
      }
      var refreshed := store.GetOutbox(row.outboxId);
      r := ClaimResult(false, refreshed,
                       Some(if refreshed.None? then "outbox_not_found"
                            else "outbox_not_claimable:" + StatusValue(refreshed.value.status)));
    }

    /**
     Claims a due row: exactly when it exists, is pending and due, and is not exhausted or may be
     claimed even so. Otherwise nothing changes and the reason names the first failing condition.
     */
    method ClaimDueOutbox(
      workerId: string, now: int, outboxId: Option<Uuid>, ingressId: Option<Uuid>, allowExhausted: bool)
      returns (r: Result<ClaimResult, string>, ghost current: Option<Row>)
      requires store.Valid()
      modifies store
      ensures store.Valid()
      ensures r.Err? <==> workerId == "" || (outboxId.None? && ingressId.None?)
      ensures r.Ok? && outboxId.Some? ==>
        current == if outboxId.value in old(store.rows) then Some(old(store.rows)[outboxId.value]) else None
      ensures r.Ok? && outboxId.None? ==> (current.Some? <==> KnownIngress(old(store.rows), ingressId.value))
      ensures r.Ok? && current.Some? ==>
        current.value.outboxId in old(store.rows) && old(store.rows)[current.value.outboxId] == current.value
      ensures r.Ok? ==>
        (r.value.claimed <==> current.Some? && OutboxProtocol.MayClaim(limits, current.value, now, allowExhausted))
      ensures r.Ok? ==>
        (r.value.claimed <==>
           && current.Some? && current.value.status == Pending
           && (current.value.nextAttemptAt.None? || current.value.nextAttemptAt.value <= now)
           && (allowExhausted || (current.value.attemptCount < limits.maxAttempts
                                  && now < current.value.createdAt + limits.maxAgeSeconds)))
      ensures r.Ok? && r.value.claimed ==>
        && store.rows ==
             old(store.rows)[current.value.outboxId := After(current.value, ClaimAfter(current.value, workerId, now))]
        && r.value.outbox == Some(After(current.value, ClaimAfter(current.value, workerId, now)))
      ensures r.Ok? && r.value.claimed ==>
        var row := current.value;
        r.value.outbox == Some(row.(
          status := Claimed, claimedAt := Some(now), workerId := Some(workerId),
          claimId := Some(Uuid5(row.outboxId.text + "|" + workerId + "|" + Decimal(row.attemptCount + 1))),
          attemptCount := row.attemptCount + 1, lastError := None))
      ensures r.Err? || !r.value.claimed ==> store.rows == old(store.rows)
      ensures r.Ok? && !r.value.claimed ==> r.value.outbox == current && r.value.reason == Some(
        if current.None? then "outbox_not_found"
        else if !current.value.status.Pending? then "outbox_not_claimable:" + StatusValue(current.value.status)
        else if !AtMost(current.value.nextAttemptAt, now) then "outbox_not_due"
        else "outbox_retry_budget_exhausted")
    {
      current := None;
      if workerId == "" {
        return Err("worker_id must be non-empty"), None;
      }
      if outboxId.None? && ingressId.None? {
        return Err("outbox_id or ingress_id is required"), None;
      }
      var found := FindOutbox(outboxId, ingressId);
      current := found;
      if found.None? {
        return Ok(ClaimResult(false, None, Some("outbox_not_found"))), current;
      }
      var row := found.value;
      if !row.status.Pending? {
        return Ok(ClaimResult(false, found, Some("outbox_not_claimable:" + StatusValue(row.status)))), current;
      }
      if row.nextAttemptAt.Some? && row.nextAttemptAt.value > now {
        return Ok(ClaimResult(false, found, Some("outbox_not_due"))), current;
      }
      if !allowExhausted && Exhausted(limits, row, now) {
        return Ok(ClaimResult(false, found, Some("outbox_retry_budget_exhausted"))), current;
      }
      var result := SubmitClaim(row, workerId, now);
      r := Ok(result);
    }

    /** Gives a failed attempt back, due after the back-off or the caller's own delay. */
    method Reschedule(outbox: Row, claimId: ClaimId, error: string, now: int, retryAfter: Option<int>)
      returns (r: Option<Row>)
      requires store.Valid() && ValidLimits(limits)
      modifies store
      ensures store.Valid()
      ensures
        var due := NextAttempt(limits, outbox, now, retryAfter);
        var w := Write.Reschedule(claimId, due, error, CurrentMetadata(old(store.rows), outbox.outboxId));
        store.rows == Update(old(store.rows), outbox.outboxId, w) &&
        r == if Hits(old(store.rows), outbox.outboxId, w) then Some(store.rows[outbox.outboxId]) else None
      ensures r.Some? ==> r.value.nextAttemptAt.Some? && r.value.nextAttemptAt.value > now
      ensures r.Some? && retryAfter.Some? && retryAfter.value > 0 ==>
        r.value.nextAttemptAt == Some(now + retryAfter.value)
      ensures r.Some? && (retryAfter.None? || retryAfter.value <= 0) ==>
        var n := if outbox.attemptCount >= 1 then outbox.attemptCount else 1;
        var wait := r.value.nextAttemptAt.value - now;
        && wait == TotalDelay(limits, n) - TotalDelay(limits, n - 1)
        && (limits.retryBaseSeconds * PowerOfTwo(n - 1) < 3600 ==>
              wait == limits.retryBaseSeconds * PowerOfTwo(n - 1))
        && (limits.retryBaseSeconds * PowerOfTwo(n - 1) >= 3600 ==> wait == 3600)
      ensures r.Some? <==>
        var t := old(store.rows);
        outbox.outboxId in t && t[outbox.outboxId].status == Claimed && t[outbox.outboxId].claimId == Some(claimId)
    {
      RescheduleIsLater(limits, outbox, now, retryAfter);
      r := store.RescheduleOutbox(outbox.outboxId, claimId, NextAttempt(limits, outbox, now, retryAfter), error);
    }

    /** One row of the stale sweep. */
    method RequeueOne(id: Uuid, staleBefore: int, requeuedAt: int, reason: string) returns (r: RequeueResult)
      requires store.Valid()
      modifies store
      ensures store.Valid()
      ensures (store.rows, r) == RequeueOutcome(old(store.rows), id, staleBefore, requeuedAt, reason)
    {
      var updated := store.RequeueStaleOutbox(id, staleBefore, requeuedAt, reason);
      if updated.Some? {
        r := RequeueResult(true, updated, None);
      } else {
        var current := store.GetOutbox(id);
        r := RequeueResult(false, current, Some("outbox_not_stale"));
      }
    }

    /**
     The stale sweep. Every row of the page is freed, in page order, and none is refused; all
     other rows are as before; and when the limit covers them, no stale claim is left.
     */
    method RequeueStaleClaimed(staleBefore: int, requeuedAt: int, limit: int, tenantId: Option<string>, reason: string)
      returns (r: Result<SweepResult, string>, ghost page: seq<Row>)
      requires store.Valid()
      modifies store
      ensures store.Valid()
      ensures r.Err? <==> limit < 1 || limit > 500
      ensures r.Err? ==> store.rows == old(store.rows)
      ensures r.Ok? ==> IsPage(old(store.rows), StaleQuery(staleBefore, limit, tenantId), page)
      ensures r.Ok? ==>
        StaleSwept(old(store.rows), page, staleBefore, requeuedAt, limit, tenantId, reason, store.rows)
      ensures r.Ok? ==> r.value == SweepResult(|page|, r.value.requeued, [], []) && |r.value.requeued| == |page|
      ensures r.Ok? ==> forall i :: 0 <= i < |page| ==>
        r.value.requeued[i] == RequeueResult(true, Some(store.rows[page[i].outboxId]), None)
    {
      page := [];
      if limit < 1 {
        return Err("limit must be positive"), page;
      }
      var listing := store.ListOutbox(StaleQuery(staleBefore, limit, tenantId));
      if listing.Err? {
        return Err(listing.error), page;
      }
      page := listing.value.records;
      PageIsListed(old(store.rows), StaleQuery(staleBefore, limit, tenantId), page);
      var result := RequeuePage(listing.value.records, limit, tenantId, staleBefore, requeuedAt, reason);
      FreedInColumns(old(store.rows), page, staleBefore, requeuedAt, reason, store.rows);
      StaleSweepInColumns(old(store.rows), page, staleBefore, requeuedAt, limit, tenantId, reason, store.rows);
      r := Ok(result);
    }

    /** The sweep visits row `i` of the page, having freed those before it; `t` is the table it began with. */
    method RequeueNext(records: seq<Row>, i: nat, ghost limit: int, ghost tenantId: Option<string>,
                       staleBefore: int, requeuedAt: int, reason: string, ghost t: Table)
      returns (r: RequeueResult)
      requires store.Valid() && i < |records|
      requires Listed(t, StaleQuery(staleBefore, limit, tenantId), records)
      requires ChangedOnPage(t, records, i, RequeueWith(staleBefore, requeuedAt, reason), store.rows)
      modifies store
      ensures store.Valid()
      ensures ChangedOnPage(t, records, i + 1, RequeueWith(staleBefore, requeuedAt, reason), store.rows)
      ensures r == RequeueResult(true, Some(Requeued(records[i], staleBefore, requeuedAt, reason)), None)
    {
      ghost var change := RequeueWith(staleBefore, requeuedAt, reason);
      ghost var before := store.rows;
      NextIsUntouched(t, records, i, change, before);
      FreedBySweep(before, records[i], staleBefore, requeuedAt, reason);
      r := RequeueOne(records[i].outboxId, staleBefore, requeuedAt, reason);
      OneMoreChanged(t, records, i, change, before, store.rows);
    }

    method RequeuePage(records: seq<Row>, ghost limit: int, ghost tenantId: Option<string>,
                       staleBefore: int, requeuedAt: int, reason: string)
      returns (r: SweepResult)
      requires store.Valid() && Listed(store.rows, StaleQuery(staleBefore, limit, tenantId), records)
      modifies store
      ensures store.Valid()
      ensures
        ChangedOnPage(old(store.rows), records, |records|, RequeueWith(staleBefore, requeuedAt, reason), store.rows)
      ensures r == SweepResult(|records|, RequeuedResults(records, staleBefore, requeuedAt, reason), [], [])
    {
      var requeued: seq<RequeueResult> := [];
      var refused: seq<RequeueResult> := [];
      for i := 0 to |records|
        invariant store.Valid()
        invariant ChangedOnPage(old(store.rows), records, i, RequeueWith(staleBefore, requeuedAt, reason), store.rows)
        invariant requeued == RequeuedResults(records[..i], staleBefore, requeuedAt, reason) && refused == []
      {
        var result := RequeueNext(records, i, limit, tenantId, staleBefore, requeuedAt, reason, old(store.rows));
        if result.requeued {
          requeued := requeued + [result];
        } else {
          refused := refused + [result];
        }
        assert records[..i + 1][..i] == records[..i];
      }
      assert records[..|records|] == records;
      r := SweepResult(|records|, requeued, refused, []);
    }

    /**
     One row of the dead-letter sweep, as it was listed: if it was exhausted then, the row as it is
     now is claimed and given up, provided that it is still pending and due.
     */
    method GiveUpOne(row: Row, now: int, reason: string) returns (r: Option<Row>)
      requires store.Valid()
      modifies store
      ensures store.Valid()
      ensures
        var t := old(store.rows);
        var id := row.outboxId;
        if Exhausted(limits, row, now) && id in t && OutboxProtocol.MayClaim(limits, t[id], now, true)
        then store.rows == t[id := GivenUp(t[id], now, reason)] && r == Some(GivenUp(t[id], now, reason))
        else store.rows == t && r == None
    {
      r := None;
      if Exhausted(limits, row, now) {
        var claim, _ := ClaimDueOutbox(RECONCILER, now, Some(row.outboxId), None, true);
        var claimed := claim.value.outbox;
        if claim.value.claimed && claimed.Some? && claimed.value.claimId.Some? {
          r := store.DeadLetterOutbox(claimed.value.outboxId, claimed.value.claimId.value, reason, now);
        }
      }
    }

    /**
     The dead-letter sweep. Every exhausted row of the page ends DEAD_LETTERED and is reported in
     page order; all other rows are as before; and when the limit covers the due rows, no
     exhausted due row is left.
     */
    method DeadLetterExhaustedPending(now: int, limit: int, tenantId: Option<string>, reason: string)
      returns (r: Result<SweepResult, string>, ghost page: seq<Row>, ghost chosen: seq<int>)
      requires store.Valid()
      modifies store
      ensures store.Valid()
      ensures r.Err? <==> limit < 1 || limit > 500
      ensures r.Err? ==> store.rows == old(store.rows)
      ensures r.Ok? ==> IsPage(old(store.rows), DueQuery(now, limit, tenantId), page)
      ensures r.Ok? ==>
        ExhaustedSwept(limits, old(store.rows), page, now, limit, tenantId, reason, store.rows)
      ensures r.Ok? ==> r.value == SweepResult(|page|, [], [], r.value.deadLettered)
      ensures r.Ok? ==> Exhausts(limits, page, now, chosen) && |r.value.deadLettered| == |chosen|
      ensures r.Ok? ==> forall k :: 0 <= k < |chosen| ==>
        r.value.deadLettered[k] == store.rows[page[chosen[k]].outboxId]
    {
      page, chosen := [], [];
      if limit < 1 {
        return Err("limit must be positive"), page, chosen;
      }
      var listing := store.ListOutbox(DueQuery(now, limit, tenantId));
      if listing.Err? {
        return Err(listing.error), page, chosen;
      }
      page := listing.value.records;
      PageIsListed(old(store.rows), DueQuery(now, limit, tenantId), page);
      var deadLettered := GiveUpPage(listing.value.records, limit, tenantId, now, reason);
      ExhaustedSweepInColumns(limits, old(store.rows), page, now, limit, tenantId, reason, store.rows);
      chosen := GivenUpReport(limits, old(store.rows), page, now, reason, store.rows, deadLettered);
      r := Ok(SweepResult(|listing.value.records|, [], [], deadLettered));
    }

    /** The sweep visits row `i` of the page, having given up the exhausted ones before it. */
    method GiveUpNext(records: seq<Row>, i: nat, ghost limit: int, ghost tenantId: Option<string>,
                      now: int, reason: string, ghost t: Table)
      returns (r: Option<Row>)
      requires store.Valid() && i < |records|
      requires Listed(t, DueQuery(now, limit, tenantId), records)
      requires ChangedOnPage(t, records, i, GiveUpIfExhausted(limits, now, reason), store.rows)
      modifies store
      ensures store.Valid()
      ensures ChangedOnPage(t, records, i + 1, GiveUpIfExhausted(limits, now, reason), store.rows)
      ensures r == if Exhausted(limits, records[i], now) then Some(GivenUp(records[i], now, reason)) else None
    {
      ghost var change := GiveUpIfExhausted(limits, now, reason);
      ghost var before := store.rows;
      NextIsUntouched(t, records, i, change, before);
      r := GiveUpOne(records[i], now, reason);
      OneMoreChanged(t, records, i, change, before, store.rows);
    }

    method GiveUpPage(records: seq<Row>, ghost limit: int, ghost tenantId: Option<string>, now: int, reason: string)
      returns (deadLettered: seq<Row>)
      requires store.Valid() && Listed(store.rows, DueQuery(now, limit, tenantId), records)
      modifies store
      ensures store.Valid()
      ensures ChangedOnPage(old(store.rows), records, |records|, GiveUpIfExhausted(limits, now, reason), store.rows)
      ensures deadLettered == GivenUpRows(limits, records, now, reason)
    {
      deadLettered := [];
      for i := 0 to |records|
        invariant store.Valid()
        invariant ChangedOnPage(old(store.rows), records, i, GiveUpIfExhausted(limits, now, reason), store.rows)
        invariant deadLettered == GivenUpRows(limits, records[..i], now, reason)
      {
        var updated := GiveUpNext(records, i, limit, tenantId, now, reason, old(store.rows));
        if updated.Some? {
          deadLettered := deadLettered + [updated.value];
        }
        assert records[..i + 1][..i] == records[..i];
      }
      assert records[..|records|] == records;
    }
  }

  /** Changing the next row of the page after the ones before it. */
  lemma OneMoreChanged(t: Table, page: seq<Row>, i: nat, change: Row -> Row, before: Table, after: Table)
    requires i < |page|
    requires forall j, k :: 0 <= j < k < |page| ==> page[j].outboxId != page[k].outboxId
    requires page[i].outboxId in t && t[page[i].outboxId] == page[i]
    requires ChangedOnPage(t, page, i, change, before)
    requires after == before[page[i].outboxId := change(page[i])]
    ensures ChangedOnPage(t, page, i + 1, change, after)
  {
    forall id | id in t
      ensures after[id] == if OnPage(page[..i + 1], id) then change(t[id]) else t[id]
    {
      OnPrefix(page, i, id);
    }
  }

  /** A freed row is pending, has no claim, and is due by `staleBefore`; an exhausted one is dead-lettered. */
  lemma SweptRows(l: Limits, row: Row, staleBefore: int, at: int, now: int, reason: string)
    requires OutboxProtocol.WellFormed(row)
    ensures row.status.Claimed? && row.claimedAt.value <= staleBefore ==>
      var r := Requeued(row, staleBefore, at, reason);
      && OutboxProtocol.WellFormed(r) && OutboxProtocol.MayClaim(l, r, staleBefore, true)
      && r.attemptCount == row.attemptCount
    ensures row.status.Pending? && AtMost(row.nextAttemptAt, now) ==>
      var r := GivenUp(row, now, reason);
      OutboxProtocol.WellFormed(r) && r.status.DeadLettered? && r.attemptCount == row.attemptCount + 1
  {
  }
}
