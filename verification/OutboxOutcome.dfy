/**
 How a row can end from a time on, in the runs the program makes: an unfinished row can be dispatched
 exactly while a dispatch worker can still claim it, holds it, or has a read in flight that will
 claim it; any other row can only be dead-lettered by the reconciler, and can be.
 */
module OutboxOutcome {
  import opened Wrappers
  import opened Outbox
  import opened OutboxProtocol
  import opened OutboxGuarantees

  // ---------- The runs of the program ----------

  /** An id derived for a claim of the reconciler. */
  ghost predicate IsReconcilers(claimId: ClaimId) {
    exists id: Uuid, n: nat :: claimId == Uuid5(ClaimSeed(id, RECONCILER, n))
  }

  /**
   Only the dead-letter sweep claims with allow_exhausted, and it does so under its own worker id;
   only dispatch workers mark rows dispatched or reschedule them, with the claims they hold.
   */
  ghost predicate BySource(step: Step) {
    match step
    case BeginClaim(_, worker, _, _, allowExhausted) => allowExhausted <==> worker == RECONCILER
    case Finish(_, MarkDispatched(claimId, _)) => !IsReconcilers(claimId)
    case Finish(_, Reschedule(claimId, _, _, _)) => !IsReconcilers(claimId)
    case _ => true
  }

  ghost predicate SourceRun(steps: seq<Step>) {
    forall i :: 0 <= i < |steps| ==> BySource(steps[i])
  }

  /** Reads are made at time `t` or later. */
  predicate From(steps: seq<Step>, t: int) {
    forall i :: 0 <= i < |steps| && steps[i].BeginClaim? ==> steps[i].now >= t
  }

  ghost predicate HeldBy(row: Row, id: Uuid, worker: string, n: nat) {
    row.workerId == Some(worker) && row.claimId == Some(Uuid5(ClaimSeed(id, worker, n)))
  }

  /** Reads with allow_exhausted are the reconciler's, and a claimed row carries an id of its worker. */
  ghost predicate SourceInv(s: State) {
    && (forall p :: p in s.inFlight ==> (s.inFlight[p].allowExhausted <==> s.inFlight[p].worker == RECONCILER))
    && (forall id :: id in s.rows && s.rows[id].status.Claimed? ==>
          exists worker, n :: HeldBy(s.rows[id], id, worker, n))
  }

  lemma WriteKeepsHolder(s: State, id: Uuid, w: Write, t: State)
    requires SourceInv(s) && t.rows == Update(s.rows, id, w) && t.inFlight == s.inFlight && !w.Claim?
    ensures SourceInv(t)
  {
    forall other | other in t.rows && t.rows[other].status.Claimed?
      ensures exists worker, n :: HeldBy(t.rows[other], other, worker, n)
    {
      assert s.rows[other] == t.rows[other];
    }
  }

  lemma ClaimKeepsHolder(s: State, process: string)
    requires SourceInv(s) && process in s.inFlight
    ensures SourceInv(AfterClaim(s, process))
  {
    var (t, r) := (AfterClaim(s, process), s.inFlight[process]);
    forall id | id in t.rows && t.rows[id].status.Claimed?
      ensures exists holder, n :: HeldBy(t.rows[id], id, holder, n)
    {
      if id == r.row && Hits(s.rows, r.row, ClaimOf(r)) {
        assert HeldBy(t.rows[id], id, r.worker, r.count + 1);
      } else {
        assert s.rows[id] == t.rows[id];
      }
    }
  }

  lemma StepKeepsSource(l: Limits, s: State, step: Step)
    requires SourceInv(s) && Enabled(l, s, step) && BySource(step)
    ensures SourceInv(Next(l, s, step))
  {
    var t := Next(l, s, step);
    match step {
      case FinishClaim(process) => ClaimKeepsHolder(s, process);
      case Finish(id, write) => WriteKeepsHolder(s, id, write, t);
      case OperatorReplay(id, at, who, task) => WriteKeepsHolder(s, id, Replay(at, who, task), t);
      case Create(_, outboxId, _) =>
        assert forall id :: id in s.rows ==> t.rows[id] == s.rows[id];
      case _ =>
    }
  }

  lemma {:induction false} AlwaysBySource(l: Limits, steps: seq<Step>)
    requires SourceRun(steps)
    ensures SourceInv(Reached(l, steps))
  {
    if steps != [] {
      var front := steps[..|steps| - 1];
      AlwaysBySource(l, front);
      if Enabled(l, Reached(l, front), steps[|steps| - 1]) {
        StepKeepsSource(l, Reached(l, front), steps[|steps| - 1]);
      }
    }
  }

  lemma OrdinaryIds(id: Uuid, worker: string, n: nat)
    ensures IsReconcilers(Uuid5(ClaimSeed(id, worker, n))) <==> worker == RECONCILER
  {
    forall id': Uuid, n': nat
      ensures ClaimSeed(id, worker, n) == ClaimSeed(id', RECONCILER, n') ==> worker == RECONCILER
    {
      ClaimSeedInjective(id, worker, n, id', RECONCILER, n');
    }
  }

  // ---------- Which rows can still be dispatched ----------

  /** The row has attempts left, is due before it is over age, and is not over age at time `t`. */
  predicate HasTime(l: Limits, row: Row, t: int) {
    && row.attemptCount < l.maxAttempts
    && (row.nextAttemptAt.Some? ==> row.nextAttemptAt.value < row.createdAt + l.maxAgeSeconds)
    && t < row.createdAt + l.maxAgeSeconds
  }

  /** The first time from `t` on at which the row is due. */
  function DueTime(row: Row, t: int): int {
    if row.nextAttemptAt.Some? && row.nextAttemptAt.value > t then row.nextAttemptAt.value else t
  }

  /** A pending row with time left is one that a dispatch worker can claim at some time from `t` on. */
  lemma ClaimableExactly(l: Limits, row: Row, t: int)
    requires row.status.Pending?
    ensures HasTime(l, row, t) <==> exists now :: now >= t && MayClaim(l, row, now, false)
  {
    if HasTime(l, row, t) {
      assert MayClaim(l, row, DueTime(row, t), false);
    }
  }

  /** A dispatch worker's process has read the row and will claim it if it is pending then. */
  ghost predicate ReadBy(s: State, id: Uuid, process: string)
    requires id in s.rows
  {
    && process in s.inFlight && !s.inFlight[process].allowExhausted && s.inFlight[process].row == id
    && AtMost(s.rows[id].nextAttemptAt, s.inFlight[process].now)
  }

  /** A dispatch worker holds the row, can claim it at some time from `t` on, or is about to. */
  ghost predicate Hopeful(l: Limits, s: State, id: Uuid, t: int)
    requires id in s.rows
  {
    var row := s.rows[id];
    || (row.status.Claimed? && row.workerId != Some(RECONCILER))
    || ((row.status.Pending? || row.status.Claimed?) && (HasTime(l, row, t) || exists p :: ReadBy(s, id, p)))
  }

  /** A row that is exhausted at time `t` is only hopeful while a dispatch worker holds it or has read it. */
  lemma ExhaustedRows(l: Limits, s: State, id: Uuid, t: int)
    requires id in s.rows && Exhausted(l, s.rows[id], t)
    ensures Hopeful(l, s, id, t) <==>
      || (s.rows[id].status.Claimed? && s.rows[id].workerId != Some(RECONCILER))
      || ((s.rows[id].status.Pending? || s.rows[id].status.Claimed?) && exists p :: ReadBy(s, id, p))
  {
  }

  // ---------- Hopeless rows stay hopeless ----------

  /** Not dispatched, and nothing dispatches it any more. */
  ghost predicate Hopeless(l: Limits, s: State, id: Uuid, t: int) {
    id in s.rows && !s.rows[id].status.Dispatched? && !Hopeful(l, s, id, t)
  }

  lemma HopelessReads(l: Limits, s: State, next: State, id: Uuid, t: int)
    requires Hopeless(l, s, id, t) && id in next.rows && next.rows[id] == s.rows[id]
    requires forall p :: p in next.inFlight && !next.inFlight[p].allowExhausted && next.inFlight[p].row == id ==>
      p in s.inFlight && s.inFlight[p] == next.inFlight[p]
    ensures Hopeless(l, next, id, t)
  {
    assert forall p :: ReadBy(next, id, p) ==> ReadBy(s, id, p);
  }

  lemma HopelessBegin(l: Limits, s: State, step: Step, id: Uuid, t: int)
    requires Hopeless(l, s, id, t) && step.BeginClaim? && Enabled(l, s, step) && step.now >= t
    ensures Hopeless(l, Next(l, s, step), id, t)
  {
    if s.rows[id].status.Pending? {
      ClaimableExactly(l, s.rows[id], t);
    }
    HopelessReads(l, s, Next(l, s, step), id, t);
  }

  lemma HopelessFinishClaim(l: Limits, s: State, process: string, id: Uuid, t: int)
    requires SourceInv(s) && Hopeless(l, s, id, t) && process in s.inFlight
    ensures Hopeless(l, AfterClaim(s, process), id, t)
  {
    var (next, r) := (AfterClaim(s, process), s.inFlight[process]);
    if r.row == id && Hits(s.rows, id, ClaimOf(r)) {
      assert !ReadBy(s, id, process);
      assert r.worker == RECONCILER;
      assert forall p :: ReadBy(next, id, p) ==> ReadBy(s, id, p);
    } else {
      HopelessReads(l, s, next, id, t);
    }
  }

  lemma HopelessFinish(l: Limits, s: State, id: Uuid, write: Write, next: State, t: int)
    requires SourceInv(s) && Hopeless(l, s, id, t) && BySource(Finish(id, write)) && FinishingWrite(s, id, write)
    requires next.rows == Update(s.rows, id, write) && next.inFlight == s.inFlight
    ensures Hopeless(l, next, id, t)
    ensures Hits(s.rows, id, write) ==> write.DeadLetter? || write.RequeueStale?
  {
    if Hits(s.rows, id, write) {
      var worker, n :| HeldBy(s.rows[id], id, worker, n);
      OrdinaryIds(id, worker, n);
      assert forall p :: ReadBy(next, id, p) ==> ReadBy(s, id, p);
    } else {
      HopelessReads(l, s, next, id, t);
    }
  }

  /** A hopeless row is never claimed by a dispatch worker, dispatched or rescheduled. */
  lemma StepKeepsHopeless(l: Limits, s: State, step: Step, id: Uuid, t: int)
    requires SourceInv(s) && Hopeless(l, s, id, t) && Enabled(l, s, step) && BySource(step) && !Replays(step, id)
    requires step.BeginClaim? ==> step.now >= t
    ensures Hopeless(l, Next(l, s, step), id, t)
    ensures !s.rows[id].status.DeadLettered? && Next(l, s, step).rows[id].status.DeadLettered? ==>
      Next(l, s, step).rows[id].workerId == Some(RECONCILER)
    ensures s.rows[id].status.DeadLettered? ==> Next(l, s, step).rows[id] == s.rows[id]
  {
    var next := Next(l, s, step);
    match step {
      case BeginClaim(_, _, _, _, _) => HopelessBegin(l, s, step, id, t);
      case FinishClaim(process) => HopelessFinishClaim(l, s, process, id, t);
      case Finish(other, write) =>
        if other == id {
          HopelessFinish(l, s, id, write, next, t);
        } else {
          HopelessReads(l, s, next, id, t);
        }
      case _ => HopelessReads(l, s, next, id, t);
    }
  }

  /** A row that is dead-lettered after all was dead-lettered by the reconciler, or was so before. */
  ghost predicate EndsWithReconciler(before: Row, after: Row) {
    after.status.DeadLettered? ==>
      after.workerId == Some(RECONCILER) || (before.status.DeadLettered? && after == before)
  }

  /**
   Once a row is hopeless from a time on, no run from that time without a replay of it dispatches it;
   when it ends, the reconciler has dead-lettered it.
   */
  lemma {:induction false} HopelessForGood(l: Limits, steps: seq<Step>, more: seq<Step>, id: Uuid, t: int)
    requires SourceRun(steps) && SourceRun(more) && Unreplayed(more, id) && From(more, t)
    requires Hopeless(l, Reached(l, steps), id, t)
    ensures Hopeless(l, Reached(l, steps + more), id, t)
    ensures EndsWithReconciler(Reached(l, steps).rows[id], Reached(l, steps + more).rows[id])
    decreases |more|
  {
    if more == [] {
      assert steps + more == steps;
    } else {
      var (front, step) := (more[..|more| - 1], more[|more| - 1]);
      var s := Reached(l, steps + front);
      HopelessForGood(l, steps, front, id, t);
      assert steps + more == (steps + front) + [step];
      assert BySource(step) && !Replays(step, id) && (step.BeginClaim? ==> step.now >= t);
      AlwaysBySource(l, steps + front);
      if Enabled(l, s, step) {
        RunOneMore(l, steps + front, step);
        StepKeepsHopeless(l, s, step, id, t);
      } else {
        RunSkips(l, steps + front, step);
      }
    }
  }

  // ---------- Hopeful rows can be dispatched ----------

  /** A continuation of the program's own from `t` on, without replays, after which the row has the given status. */
  ghost predicate LeadsTo(l: Limits, steps: seq<Step>, more: seq<Step>, t: int, id: Uuid, status: Status) {
    && SourceRun(more) && ReplayFree(more) && From(more, t)
    && id in Reached(l, steps + more).rows && Reached(l, steps + more).rows[id].status == status
  }

  lemma Continue(l: Limits, steps: seq<Step>, first: seq<Step>, rest: seq<Step>, t: int, id: Uuid, status: Status)
    requires SourceRun(first) && ReplayFree(first) && From(first, t)
    requires LeadsTo(l, steps + first, rest, t, id, status)
    ensures LeadsTo(l, steps, first + rest, t, id, status)
  {
    assert steps + (first + rest) == (steps + first) + rest;
  }

  /** The dispatch worker that holds the row marks it dispatched. */
  lemma HeldRowIsDispatched(l: Limits, steps: seq<Step>, id: Uuid, t: int) returns (more: seq<Step>)
    requires SourceRun(steps) && id in Reached(l, steps).rows
    requires Reached(l, steps).rows[id].status.Claimed? && Reached(l, steps).rows[id].workerId != Some(RECONCILER)
    ensures LeadsTo(l, steps, more, t, id, Dispatched)
  {
    var row := Reached(l, steps).rows[id];
    AlwaysBySource(l, steps);
    var worker, n :| HeldBy(row, id, worker, n);
    OrdinaryIds(id, worker, n);
    var mark := Finish(id, MarkDispatched(row.claimId.value, t));
    RunOneMore(l, steps, mark);
    more := [mark];
  }

  /** A claim that a dispatch worker is about to send takes the pending row, which is then dispatched. */
  lemma ReadRowIsDispatched(l: Limits, steps: seq<Step>, id: Uuid, reader: string, t: int) returns (more: seq<Step>)
    requires SourceRun(steps) && id in Reached(l, steps).rows && Reached(l, steps).rows[id].status.Pending?
    requires ReadBy(Reached(l, steps), id, reader)
    ensures LeadsTo(l, steps, more, t, id, Dispatched)
  {
    AlwaysBySource(l, steps);
    RunOneMore(l, steps, FinishClaim(reader));
    var first := [FinishClaim(reader)];
    var rest := HeldRowIsDispatched(l, steps + first, id, t);
    Continue(l, steps, first, rest, t, id, Dispatched);
    more := first + rest;
  }

  /** A dispatch worker that is not at work, and a process for it. */
  predicate Available(s: State, process: string, worker: string) {
    process !in s.inFlight && worker != "" && worker != RECONCILER
  }

  /** A string that is longer than all given ones. */
  lemma LongerThanAll(names: set<string>) returns (longer: string)
    ensures forall n :: n in names ==> |n| < |longer|
  {
    longer := "";
    if names != {} {
      var x :| x in names;
      var rest := LongerThanAll(names - {x});
      longer := if |x| < |rest| then rest else x + "+";
      assert forall n :: n in names ==> n == x || n in names - {x};
    }
  }

  /** There is always a dispatch worker that is not at work. */
  lemma SomeWorker(s: State) returns (process: string, worker: string)
    ensures Available(s, process, worker)
  {
    process := LongerThanAll(s.inFlight.Keys);
    worker := "w";
    assert |RECONCILER| != |worker|;
  }

  /** An available dispatch worker takes a pending row that has time left. */
  lemma TimelyRowIsDispatched(l: Limits, steps: seq<Step>, id: Uuid, t: int, process: string, worker: string)
    returns (more: seq<Step>)
    requires SourceRun(steps) && id in Reached(l, steps).rows && Reached(l, steps).rows[id].status.Pending?
    requires HasTime(l, Reached(l, steps).rows[id], t) && Available(Reached(l, steps), process, worker)
    ensures LeadsTo(l, steps, more, t, id, Dispatched)
  {
    var now := DueTime(Reached(l, steps).rows[id], t);
    var first := [BeginClaim(process, worker, id, now, false), FinishClaim(process)];
    var all := ReadAndClaim(l, steps, process, worker, id, now, false);
    var rest := HeldRowIsDispatched(l, steps + first, id, t);
    Continue(l, steps, first, rest, t, id, Dispatched);
    more := first + rest;
  }

  /** Freeing a claimed row keeps its attempts and its times, and who has read it. */
  lemma FreeRow(l: Limits, steps: seq<Step>, id: Uuid, t: int) returns (more: seq<Step>)
    requires id in Reached(l, steps).rows && Reached(l, steps).rows[id].status.Claimed?
    ensures LeadsTo(l, steps, more, t, id, Pending)
    ensures
      var (row, freed) := (Reached(l, steps).rows[id], Reached(l, steps + more).rows[id]);
      && Reached(l, steps + more).inFlight == Reached(l, steps).inFlight
      && freed.attemptCount == row.attemptCount && freed.createdAt == row.createdAt
      && freed.nextAttemptAt == row.nextAttemptAt
  {
    RowsAlwaysWellFormed(l, steps);
    var row := Reached(l, steps).rows[id];
    var free := Finish(id, RequeueStale(row.claimedAt.value, t, "", row.metadata));
    RunOneMore(l, steps, ReadMetadata(id));
    RunOneMore(l, steps + [ReadMetadata(id)], free);
    more := [ReadMetadata(id), free];
    assert steps + more == (steps + [ReadMetadata(id)]) + [free];
  }

  /** A hopeful pending row can be dispatched. */
  lemma PendingRowIsDispatched(l: Limits, steps: seq<Step>, id: Uuid, t: int, process: string, worker: string)
    returns (more: seq<Step>)
    requires SourceRun(steps) && id in Reached(l, steps).rows && Reached(l, steps).rows[id].status.Pending?
    requires Hopeful(l, Reached(l, steps), id, t) && Available(Reached(l, steps), process, worker)
    ensures LeadsTo(l, steps, more, t, id, Dispatched)
  {
    if HasTime(l, Reached(l, steps).rows[id], t) {
      more := TimelyRowIsDispatched(l, steps, id, t, process, worker);
    } else {
      var reader :| ReadBy(Reached(l, steps), id, reader);
      more := ReadRowIsDispatched(l, steps, id, reader, t);
    }
  }

  lemma HopefulRowIsDispatched(l: Limits, steps: seq<Step>, id: Uuid, t: int)
    returns (more: seq<Step>)
    requires SourceRun(steps) && id in Reached(l, steps).rows && Hopeful(l, Reached(l, steps), id, t)
    ensures LeadsTo(l, steps, more, t, id, Dispatched)
  {
    var s := Reached(l, steps);
    var process, worker := SomeWorker(s);
    if s.rows[id].status.Pending? {
      more := PendingRowIsDispatched(l, steps, id, t, process, worker);
    } else if s.rows[id].workerId != Some(RECONCILER) {
      more := HeldRowIsDispatched(l, steps, id, t);
    } else {
      var free := FreeRow(l, steps, id, t);
      var next := Reached(l, steps + free);
      assert forall p :: ReadBy(s, id, p) ==> ReadBy(next, id, p);
      var rest := PendingRowIsDispatched(l, steps + free, id, t, process, worker);
      Continue(l, steps, free, rest, t, id, Dispatched);
      more := free + rest;
    }
  }

  /**
   In every reachable state of the program and from every time on, an unfinished row can still be
   dispatched without a replay exactly when it is hopeful.
   */
  lemma CanBeDispatchedExactly(l: Limits, steps: seq<Step>, id: Uuid, t: int)
    requires SourceRun(steps) && id in Reached(l, steps).rows && !Reached(l, steps).rows[id].status.Dispatched?
    ensures Hopeful(l, Reached(l, steps), id, t) <==> exists more :: LeadsTo(l, steps, more, t, id, Dispatched)
  {
    if Hopeful(l, Reached(l, steps), id, t) {
      var more := HopefulRowIsDispatched(l, steps, id, t);
    }
    if more :| LeadsTo(l, steps, more, t, id, Dispatched) {
      if !Hopeful(l, Reached(l, steps), id, t) {
        HopelessForGood(l, steps, more, id, t);
        assert false;
      }
    }
  }

  // ---------- No row is lost ----------

  /** A time from `t` on at which the row is exhausted and, when it is pending, due, so that a sweep takes it. */
  function SweepTime(l: Limits, row: Row, t: int): (now: int)
    ensures now >= t && Exhausted(l, row, now)
    ensures row.status.Pending? ==> MayClaim(l, row, now, true)
  {
    var overAge := row.createdAt + l.maxAgeSeconds;
    DueTime(row, if overAge > t then overAge else t)
  }

  /** The holder of an exhausted row gives it up. */
  lemma HeldRowIsGivenUp(l: Limits, steps: seq<Step>, id: Uuid, t: int) returns (more: seq<Step>)
    requires id in Reached(l, steps).rows && Reached(l, steps).rows[id].status.Claimed?
    ensures LeadsTo(l, steps, more, t, id, DeadLettered)
  {
    RowsAlwaysWellFormed(l, steps);
    var row := Reached(l, steps).rows[id];
    var giveUp := Finish(id, DeadLetter(row.claimId.value, "", SweepTime(l, row, t), row.metadata));
    RunOneMore(l, steps, ReadMetadata(id));
    RunOneMore(l, steps + [ReadMetadata(id)], giveUp);
    more := [ReadMetadata(id), giveUp];
    assert steps + more == (steps + [ReadMetadata(id)]) + [giveUp];
  }

  /** A dead-letter sweep takes the pending row and gives it up. */
  lemma PendingRowIsGivenUp(l: Limits, steps: seq<Step>, id: Uuid, t: int, process: string) returns (more: seq<Step>)
    requires id in Reached(l, steps).rows && Reached(l, steps).rows[id].status.Pending?
    requires process !in Reached(l, steps).inFlight
    ensures LeadsTo(l, steps, more, t, id, DeadLettered)
  {
    var now := SweepTime(l, Reached(l, steps).rows[id], t);
    var first := [BeginClaim(process, RECONCILER, id, now, true), FinishClaim(process)];
    var all := ReadAndClaim(l, steps, process, RECONCILER, id, now, true);
    var rest := HeldRowIsGivenUp(l, steps + first, id, t);
    Continue(l, steps, first, rest, t, id, DeadLettered);
    more := first + rest;
  }

  /**
   No row is lost: from every reachable state of the program and every time on, every unfinished row
   can be finished without a replay. It can be dispatched exactly while it is hopeful, and
   dead-lettered in any case.
   */
  lemma NoRowIsLost(l: Limits, steps: seq<Step>, id: Uuid, t: int)
    requires SourceRun(steps) && id in Reached(l, steps).rows
    requires Reached(l, steps).rows[id].status.Pending? || Reached(l, steps).rows[id].status.Claimed?
    ensures Hopeful(l, Reached(l, steps), id, t) <==> exists more :: LeadsTo(l, steps, more, t, id, Dispatched)
    ensures exists more :: LeadsTo(l, steps, more, t, id, DeadLettered)
  {
    CanBeDispatchedExactly(l, steps, id, t);
    if Reached(l, steps).rows[id].status.Claimed? {
      var more := HeldRowIsGivenUp(l, steps, id, t);
    } else {
      var process, worker := SomeWorker(Reached(l, steps));
      var more := PendingRowIsGivenUp(l, steps, id, t, process);
    }
  }
}
