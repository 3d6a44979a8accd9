/**
 What the outbox promises about each row over whole runs: it keeps its origin through lost
 updates of its metadata, a finished row stays finished, an exhausted row stays exhausted, a due
 row can be claimed and a claimed one freed.
 */
module OutboxGuarantees {
  import opened Wrappers
  import opened Outbox
  import opened OutboxProtocol

  // ---------- Provenance ----------

  predicate IsOrigin(key: MetaKey) {
    key.BoundaryIngressId? || key.BoundaryEventId? || key.BoundarySourceType? || key.BoundaryExternalMessageId?
  }

  function Entry(m: Metadata, key: MetaKey): Option<MetaValue> {
    if key in m then Some(m[key]) else None
  }

  ghost predicate SameOrigin(m: Metadata, m': Metadata) {
    forall key :: IsOrigin(key) ==> Entry(m, key) == Entry(m', key)
  }

  /** The row is the one created: same ingress, tenant, channel and origin entries. */
  ghost predicate Descends(row: Row, born: Row) {
    && row.ingressId == born.ingressId && row.tenantId == born.tenantId && row.channel == born.channel
    && SameOrigin(row.metadata, born.metadata)
  }

  /** Every row is the one created, at the time it was created unless it was replayed. */
  ghost predicate RowsKeepOrigin(s: State) {
    && s.rows.Keys == s.born.Keys
    && (forall id :: id in s.rows ==> Descends(s.rows[id], s.born[id]))
    && (forall id :: id in s.rows && Count(s.replays, id) == 0 ==> s.rows[id].createdAt == s.born[id].createdAt)
  }

  /** Besides, a snapshot is empty (it was read before there was a row) or has the origin of its row. */
  ghost predicate OriginInv(s: State) {
    && RowsKeepOrigin(s)
    && (forall id, m :: (id, m) in s.snapshots ==> m == map[] || (id in s.born && SameOrigin(m, s.born[id].metadata)))
    && (forall id :: id in s.born ==> BoundaryIngressId in s.born[id].metadata)
  }

  predicate HasSnapshot(w: Write) { w.Reschedule? || w.DeadLetter? || w.RequeueStale? }

  /** The step overwrites the metadata of a row with what was read when there was no row. */
  predicate WritesEmpty(s: State, step: Step) {
    step.Finish? && HasSnapshot(step.write) && step.write.snapshot == map[] && Hits(s.rows, step.id, step.write)
  }

  /**
   A new row tells where it came from, and can be claimed from its creation time on; the time is
   the one asked for or else that of the ingress.
   */
  lemma MadeRowTellsOrigin(l: Limits, record: IngressRecord, outboxId: Uuid, createdAt: Option<int>, now: int)
    requires ValidLimits(l)
    ensures MakeRow(record, outboxId, createdAt).Some? <==> Eligible(record)
    ensures Eligible(record) <==>
      && record.tenantId.Some? && (exists k :: 0 <= k < |record.tenantId.value| && !IsSpace(record.tenantId.value[k]))
      && record.normalizationOk && record.replayNew && record.eventId.Some? && !record.source.TwilioVoice?
      && (exists c, i :: c in ALLOWED_CHANNELS && SettledAt(record.channelHints + [SourceValue(record.source)], i, c))
    ensures Eligible(record) ==>
      var row := MakeRow(record, outboxId, createdAt).value;
      && row.outboxId == outboxId && row.ingressId == record.ingressId && Some(row.tenantId) == record.tenantId
      && row.channel in ALLOWED_CHANNELS
      && (exists i :: SettledAt(record.channelHints + [SourceValue(record.source)], i, row.channel))
      && row.status == Pending && row.attemptCount == 0 && row.claimId == None && row.workerId == None
      && row.claimedAt == None && row.dispatchedAt == None && row.lastError == None
      && row.createdAt == (if createdAt.Some? then createdAt.value else record.receivedAt)
      && row.nextAttemptAt == Some(row.createdAt)
    ensures Eligible(record) ==>
      var row := MakeRow(record, outboxId, createdAt).value;
      && Entry(row.metadata, BoundaryIngressId) == Some(Text(record.ingressId.text))
      && Entry(row.metadata, BoundaryEventId) == Some(Text(record.eventId.value))
      && Entry(row.metadata, BoundarySourceType) == Some(Text(SourceValue(record.source)))
      && (record.externalMessageId.Some? ==>
            Entry(row.metadata, BoundaryExternalMessageId) == Some(Text(record.externalMessageId.value)))
      && (MayClaim(l, row, now, true) <==> row.createdAt <= now)
      && (MayClaim(l, row, now, false) <==> row.createdAt <= now < row.createdAt + l.maxAgeSeconds)
  {
    forall c
      ensures DispatchChannel(record) == Some(c) <==>
        && !record.source.TwilioVoice? && c in ALLOWED_CHANNELS
        && (exists i :: SettledAt(record.channelHints + [SourceValue(record.source)], i, c))
    {
      ChannelIsFirstAllowed(record, c);
    }
  }

  /** An update writes a snapshot or keeps the metadata, and its own entries are none of the origin's. */
  lemma WriteKeepsOrigin(row: Row, w: Write, origin: Metadata)
    requires SameOrigin(row.metadata, origin)
    requires HasSnapshot(w) ==> SameOrigin(w.snapshot, origin)
    ensures SameOrigin(After(row, w).metadata, origin)
  {
  }

  /** One update of a row keeps what it descends from, unless it writes something else back. */
  lemma UpdateKeepsDescent(row: Row, w: Write, born: Row)
    requires Descends(row, born) && (HasSnapshot(w) ==> SameOrigin(w.snapshot, born.metadata))
    ensures Descends(After(row, w), born)
  {
    WriteFrame(row, w);
    WriteKeepsOrigin(row, w, born.metadata);
  }

  lemma UpdateKeepsOrigin(s: State, id: Uuid, w: Write, t: State)
    requires OriginInv(s) && t.rows == Update(s.rows, id, w)
    requires HasSnapshot(w) && Hits(s.rows, id, w) ==> (id, w.snapshot) in s.snapshots && w.snapshot != map[]
    requires t.born == s.born && t.snapshots == s.snapshots
    requires if w.Replay? && Hits(s.rows, id, w) then t.replays == s.replays[id := Count(s.replays, id) + 1]
      else t.replays == s.replays
    ensures OriginInv(t)
  {
    if Hits(s.rows, id, w) {
      UpdateKeepsDescent(s.rows[id], w, s.born[id]);
      WriteFrame(s.rows[id], w);
      HitKeepsOrigin(s, id, After(s.rows[id], w), t);
    }
  }

  lemma HitKeepsOrigin(s: State, id: Uuid, row: Row, t: State)
    requires OriginInv(s) && id in s.rows && t.rows == s.rows[id := row]
    requires t.born == s.born && t.snapshots == s.snapshots && Descends(row, s.born[id])
    requires
      || (t.replays == s.replays && row.createdAt == s.rows[id].createdAt)
      || t.replays == s.replays[id := Count(s.replays, id) + 1]
    ensures OriginInv(t)
  {
  }

  lemma CreateKeepsOrigin(s: State, outboxId: Uuid, row: Row, t: State)
    requires OriginInv(s) && outboxId !in s.rows && t == AfterCreate(s, outboxId, row)
    requires BoundaryIngressId in row.metadata
    ensures OriginInv(t)
  {
    assert forall id :: id in s.rows ==> t.rows[id] == s.rows[id] && t.born[id] == s.born[id];
  }

  lemma ReadKeepsOrigin(s: State, id: Uuid, t: State)
    requires OriginInv(s) && t == AfterRead(s, id)
    ensures OriginInv(t)
  {
    assert id in s.rows ==> Descends(s.rows[id], s.born[id]);
  }

  lemma BeginKeepsOrigin(s: State, t: State)
    requires OriginInv(s)
    requires t.rows == s.rows && t.born == s.born && t.replays == s.replays && t.snapshots == s.snapshots
    ensures OriginInv(t)
  {
  }

  lemma FinishKeepsOrigin(l: Limits, s: State, step: Step)
    requires OriginInv(s) && Enabled(l, s, step) && step.Finish? && !WritesEmpty(s, step)
    ensures OriginInv(Next(l, s, step))
  {
    UpdateKeepsOrigin(s, step.id, step.write, Next(l, s, step));
  }

  lemma ReplayKeepsOrigin(l: Limits, s: State, step: Step)
    requires OriginInv(s) && Enabled(l, s, step) && step.OperatorReplay?
    ensures OriginInv(Next(l, s, step))
  {
    UpdateKeepsOrigin(s, step.id, Replay(step.replayedAt, step.replayedBy, step.taskId), Next(l, s, step));
  }

  lemma ClaimKeepsOrigin(s: State, process: string)
    requires OriginInv(s) && process in s.inFlight
    ensures OriginInv(AfterClaim(s, process))
  {
    UpdateKeepsOrigin(s, s.inFlight[process].row, ClaimOf(s.inFlight[process]), AfterClaim(s, process));
  }

  lemma StepKeepsOrigin(l: Limits, s: State, step: Step)
    requires OriginInv(s) && Enabled(l, s, step) && !WritesEmpty(s, step)
    ensures OriginInv(Next(l, s, step))
  {
    var t := Next(l, s, step);
    match step {
      case Create(record, outboxId, createdAt) =>
        CreateKeepsOrigin(s, outboxId, MakeRow(record, outboxId, createdAt).value, t);
      case BeginClaim(_, _, _, _, _) => BeginKeepsOrigin(s, t);
      case ReadMetadata(id) => ReadKeepsOrigin(s, id, t);
      case FinishClaim(process) => ClaimKeepsOrigin(s, process);
      case Finish(_, _) => FinishKeepsOrigin(l, s, step);
      case OperatorReplay(_, _, _, _) => ReplayKeepsOrigin(l, s, step);
    }
  }

  /** An empty snapshot that is written wipes out the origin. */
  lemma EmptyWipesOrigin(l: Limits, s: State, step: Step)
    requires OriginInv(s) && Enabled(l, s, step) && WritesEmpty(s, step)
    ensures !RowsKeepOrigin(Next(l, s, step))
  {
    var t := Next(l, s, step);
    assert IsOrigin(BoundaryIngressId);
    assert Entry(s.born[step.id].metadata, BoundaryIngressId).Some?;
    assert Entry(t.rows[step.id].metadata, BoundaryIngressId).None?;
    assert !SameOrigin(t.rows[step.id].metadata, t.born[step.id].metadata);
  }

  /** No update of the run writes an empty snapshot. */
  ghost predicate WritesNoEmpty(l: Limits, steps: seq<Step>)
    decreases |steps|
  {
    steps != [] ==>
      var (front, step) := (steps[..|steps| - 1], steps[|steps| - 1]);
      WritesNoEmpty(l, front) && (Enabled(l, Reached(l, front), step) ==> !WritesEmpty(Reached(l, front), step))
  }

  /** All states of the run keep the origin of all rows. */
  ghost predicate AlwaysKeepsOrigin(l: Limits, steps: seq<Step>)
    decreases |steps|
  {
    RowsKeepOrigin(Reached(l, steps)) && (steps != [] ==> AlwaysKeepsOrigin(l, steps[..|steps| - 1]))
  }

  /**
   Although metadata is read in one step and overwritten in another, in every interleaving each
   row keeps the origin entries, ingress, tenant and channel it was created with, and its
   creation time unless an operator replayed it: exactly as long as no update writes back what was
   read when there was no row yet.
   */
  lemma {:induction false} OriginIsKeptExactly(l: Limits, steps: seq<Step>)
    ensures AlwaysKeepsOrigin(l, steps) <==> WritesNoEmpty(l, steps)
    ensures WritesNoEmpty(l, steps) ==> OriginInv(Reached(l, steps))
    decreases |steps|
  {
    if steps != [] {
      var (front, step) := (steps[..|steps| - 1], steps[|steps| - 1]);
      OriginIsKeptExactly(l, front);
      if WritesNoEmpty(l, front) && Enabled(l, Reached(l, front), step) {
        if WritesEmpty(Reached(l, front), step) {
          EmptyWipesOrigin(l, Reached(l, front), step);
        } else {
          StepKeepsOrigin(l, Reached(l, front), step);
        }
      }
    }
  }

  /** Metadata is read of existing rows only, as in the program. */
  ghost predicate ReadsExisting(l: Limits, steps: seq<Step>)
    decreases |steps|
  {
    steps != [] ==>
      var (front, step) := (steps[..|steps| - 1], steps[|steps| - 1]);
      ReadsExisting(l, front) && (step.ReadMetadata? ==> step.id in Reached(l, front).rows)
  }

  ghost predicate NoEmptySnapshots(s: State) {
    forall id, m :: (id, m) in s.snapshots ==> m != map[]
  }

  /** So no origin is lost when no snapshot of a row precedes its creation. */
  lemma {:induction false} OriginIsNeverLost(l: Limits, steps: seq<Step>)
    requires ReadsExisting(l, steps)
    ensures OriginInv(Reached(l, steps)) && NoEmptySnapshots(Reached(l, steps)) && AlwaysKeepsOrigin(l, steps)
    decreases |steps|
  {
    if steps != [] {
      var (front, step) := (steps[..|steps| - 1], steps[|steps| - 1]);
      OriginIsNeverLost(l, front);
      if Enabled(l, Reached(l, front), step) {
        NotEmptyNext(l, Reached(l, front), step);
        StepKeepsOrigin(l, Reached(l, front), step);
      }
    }
  }

  lemma NotEmptyNext(l: Limits, s: State, step: Step)
    requires OriginInv(s) && NoEmptySnapshots(s) && Enabled(l, s, step)
    requires step.ReadMetadata? ==> step.id in s.rows
    ensures NoEmptySnapshots(Next(l, s, step)) && !WritesEmpty(s, step)
  {
    if step.ReadMetadata? {
      assert IsOrigin(BoundaryIngressId);
      assert Descends(s.rows[step.id], s.born[step.id]);
      assert Entry(s.rows[step.id].metadata, BoundaryIngressId) == Entry(s.born[step.id].metadata, BoundaryIngressId);
      assert BoundaryIngressId in s.rows[step.id].metadata;
    }
  }

  /** A row with the empty snapshot taken before its creation. */
  predicate ReadEarly(s: State, id: Uuid) {
    && id in s.rows && id in s.born && (id, map[]) in s.snapshots && BoundaryIngressId in s.born[id].metadata
  }

  lemma SnapshotBeforeCreation(l: Limits, record: IngressRecord, id: Uuid) returns (steps: seq<Step>)
    requires ValidLimits(l) && Eligible(record)
    ensures ReplayFree(steps) && ReadEarly(Reached(l, steps), id) && Reached(l, steps).inFlight == map[]
    ensures MayClaim(l, Reached(l, steps).rows[id], 0, false)
  {
    MadeRowTellsOrigin(l, record, id, Some(0), 0);
    steps := Extend(l, [], ReadMetadata(id));
    steps := Extend(l, steps, Create(record, id, Some(0)));
  }

  /** A run that loses an origin: the metadata is read too early and written back after a claim. */
  lemma EarlyReadLosesOrigin(l: Limits, record: IngressRecord, id: Uuid) returns (steps: seq<Step>)
    requires ValidLimits(l) && Eligible(record)
    ensures ReplayFree(steps) && !RowsKeepOrigin(Reached(l, steps))
  {
    steps := SnapshotBeforeCreation(l, record, id);
    steps := Extend(l, steps, BeginClaim("p", "w", id, 0, false));
    steps := Extend(l, steps, FinishClaim("p"));
    steps := Extend(l, steps, Finish(id, RequeueStale(0, 0, "", map[])));
    var s := Reached(l, steps);
    assert IsOrigin(BoundaryIngressId);
    assert Entry(s.born[id].metadata, BoundaryIngressId).Some? && Entry(s.rows[id].metadata, BoundaryIngressId).None?;
    assert !SameOrigin(s.rows[id].metadata, s.born[id].metadata);
  }

  lemma StepKeepsBirths(l: Limits, s: State, step: Step, id: Uuid)
    requires s.rows.Keys == s.born.Keys && Enabled(l, s, step) && id in s.born
    ensures id in Next(l, s, step).born && Next(l, s, step).born[id] == s.born[id]
  {
  }

  lemma StepKeepsKeys(l: Limits, s: State, step: Step)
    requires s.rows.Keys == s.born.Keys && Enabled(l, s, step)
    ensures Next(l, s, step).rows.Keys == Next(l, s, step).born.Keys
  {
  }

  lemma {:induction false} BornRows(l: Limits, steps: seq<Step>)
    ensures Reached(l, steps).rows.Keys == Reached(l, steps).born.Keys
  {
    if steps != [] {
      var front := steps[..|steps| - 1];
      BornRows(l, front);
      if Enabled(l, Reached(l, front), steps[|steps| - 1]) {
        StepKeepsKeys(l, Reached(l, front), steps[|steps| - 1]);
      }
    }
  }

  /** What was recorded at creation stays recorded. */
  lemma {:induction false} BirthIsPermanent(l: Limits, steps: seq<Step>, more: seq<Step>, id: Uuid)
    requires id in Reached(l, steps).born
    ensures id in Reached(l, steps + more).born
    ensures Reached(l, steps + more).born[id] == Reached(l, steps).born[id]
    decreases |more|
  {
    if more == [] {
      assert steps + more == steps;
    } else {
      var all := steps + more;
      var front := steps + more[..|more| - 1];
      BirthIsPermanent(l, steps, more[..|more| - 1], id);
      assert all[..|all| - 1] == front;
      if Enabled(l, Reached(l, front), all[|all| - 1]) {
        BornRows(l, front);
        StepKeepsBirths(l, Reached(l, front), all[|all| - 1], id);
      }
    }
  }

  // ---------- Finished and exhausted rows ----------

  predicate Replays(step: Step, id: Uuid) {
    step.OperatorReplay? && step.id == id
  }

  /** One step: finished rows are left alone, attempts and age only grow. */
  lemma StepOnRow(l: Limits, s: State, step: Step, id: Uuid)
    requires Enabled(l, s, step) && id in s.rows
    ensures id in Next(l, s, step).rows
    ensures s.rows[id].status.Dispatched? ==> Next(l, s, step).rows[id] == s.rows[id]
    ensures s.rows[id].status.DeadLettered? && !Replays(step, id) ==> Next(l, s, step).rows[id] == s.rows[id]
    ensures !Replays(step, id) ==>
      && Next(l, s, step).rows[id].attemptCount >= s.rows[id].attemptCount
      && Next(l, s, step).rows[id].createdAt == s.rows[id].createdAt
  {
    match step {
      case FinishClaim(process) => WriteFrame(s.rows[id], ClaimOf(s.inFlight[process]));
      case Finish(_, write) => WriteFrame(s.rows[id], write);
      case _ =>
    }
  }

  /** A dispatched row never changes again; a dead-lettered one only by an operator replay of it. */
  lemma {:induction false} FinishedRowsStay(l: Limits, s: State, steps: seq<Step>, id: Uuid)
    requires id in s.rows
    requires s.rows[id].status.Dispatched? || (s.rows[id].status.DeadLettered? && Unreplayed(steps, id))
    ensures id in Run(l, s, steps).rows && Run(l, s, steps).rows[id] == s.rows[id]
    decreases |steps|
  {
    if steps != [] {
      var front := steps[..|steps| - 1];
      FinishedRowsStay(l, s, front, id);
      if Enabled(l, Run(l, s, front), steps[|steps| - 1]) {
        StepOnRow(l, Run(l, s, front), steps[|steps| - 1], id);
      }
    }
  }

  lemma {:induction false} RowsOnlyAge(l: Limits, s: State, steps: seq<Step>, id: Uuid)
    requires id in s.rows && Unreplayed(steps, id)
    ensures id in Run(l, s, steps).rows
    ensures Run(l, s, steps).rows[id].attemptCount >= s.rows[id].attemptCount
    ensures Run(l, s, steps).rows[id].createdAt == s.rows[id].createdAt
    decreases |steps|
  {
    if steps != [] {
      var front := steps[..|steps| - 1];
      RowsOnlyAge(l, s, front, id);
      if Enabled(l, Run(l, s, front), steps[|steps| - 1]) {
        StepOnRow(l, Run(l, s, front), steps[|steps| - 1], id);
      }
    }
  }

  /** Once out of attempts or over age, a row stays so in every later state at every later time until a replay. */
  lemma ExhaustedForGood(l: Limits, s: State, steps: seq<Step>, id: Uuid, now: int, later: int)
    requires id in s.rows && Unreplayed(steps, id) && now <= later
    requires Exhausted(l, s.rows[id], now)
    ensures id in Run(l, s, steps).rows && Exhausted(l, Run(l, s, steps).rows[id], later)
  {
    RowsOnlyAge(l, s, steps, id);
  }

  // ---------- Claiming and freeing ----------

  /**
   In every reachable state, a claim with allow_exhausted by an idle process takes a pending row when
   it is due, as its next attempt; when it is not due, nothing changes.
   */
  lemma DueRowsAreClaimed(l: Limits, steps: seq<Step>, id: Uuid, process: string, worker: string, now: int)
    requires id in Reached(l, steps).rows && Reached(l, steps).rows[id].status.Pending?
    requires worker != "" && process !in Reached(l, steps).inFlight
    ensures
      var s := Reached(l, steps);
      var t := Reached(l, steps + [BeginClaim(process, worker, id, now, true), FinishClaim(process)]);
      if AtMost(s.rows[id].nextAttemptAt, now)
      then
        && id in t.rows && t.rows[id].status.Claimed? && t.rows[id].workerId == Some(worker)
        && t.rows[id].attemptCount == s.rows[id].attemptCount + 1
        && |t.claims| == |s.claims| + 1 && t.rows[id].claimId == Some(t.claims[|s.claims|].claimId)
      else t == s
  {
    var s := Reached(l, steps);
    var begin := BeginClaim(process, worker, id, now, true);
    if AtMost(s.rows[id].nextAttemptAt, now) {
      var _ := ReadAndClaim(l, steps, process, worker, id, now, true);
    } else {
      RunSkips(l, steps, begin);
      RunSkips(l, steps + [begin], FinishClaim(process));
      assert steps + [begin, FinishClaim(process)] == (steps + [begin]) + [FinishClaim(process)];
    }
  }

  /** A stale claim of a reachable row can be freed, and the freed row is due at once. */
  lemma StaleClaimIsFreed(l: Limits, steps: seq<Step>, id: Uuid, staleBefore: int, at: int, reason: string, m: Metadata)
    requires id in Reached(l, steps).rows && Reached(l, steps).rows[id].status.Claimed?
    requires Reached(l, steps).rows[id].claimedAt.Some? ==> Reached(l, steps).rows[id].claimedAt.value <= staleBefore
    ensures
      var w := RequeueStale(staleBefore, at, reason, m);
      var t := Update(Reached(l, steps).rows, id, w);
      Hits(Reached(l, steps).rows, id, w) && t[id].status.Pending? && MayClaim(l, t[id], staleBefore, true)
  {
    RowsAlwaysWellFormed(l, steps);
  }
}
