/**
 The attempt budget of a row under stale reads. The claim's guard does not look at the attempt
 count that the read saw, so a row can be claimed more often than the limit; this module proves
 by how much, and that the bound is reached.
 */
module OutboxBudget {
  import opened Wrappers
  import opened Outbox
  import opened OutboxProtocol
  import opened OutboxFencing

  /** Reads without allow_exhausted are made by these processes only. */
  ghost predicate OrdinaryProcesses(steps: seq<Step>, processes: set<string>) {
    forall i :: 0 <= i < |steps| && steps[i].BeginClaim? && !steps[i].allowExhausted ==> steps[i].process in processes
  }

  /** The processes with an ordinary read of the row in flight. */
  ghost function Waiting(s: State, id: Uuid): set<string> {
    set w | w in s.inFlight && s.inFlight[w].row == id && !s.inFlight[w].allowExhausted
  }

  ghost predicate BudgetInv(l: Limits, s: State, processes: set<string>) {
    && (forall id :: Waiting(s, id) <= processes)
    && (forall id :: id in s.rows ==>
         s.rows[id].attemptCount + |Waiting(s, id)| <= l.maxAttempts - 1 + |processes| + Count(s.exhaustedClaims, id))
  }

  lemma SubsetCount<T>(a: set<T>, b: set<T>)
    requires a <= b
    ensures |a| <= |b|
  {
    assert b == a + (b - a);
  }

  lemma BeginKeepsRowBudget(l: Limits, s: State, step: Step, processes: set<string>, id: Uuid)
    requires BudgetInv(l, s, processes) && step.BeginClaim? && Enabled(l, s, step)
    requires !step.allowExhausted ==> step.process in processes
    ensures Waiting(Next(l, s, step), id) <= processes
    ensures id in s.rows ==>
      s.rows[id].attemptCount + |Waiting(Next(l, s, step), id)|
        <= l.maxAttempts - 1 + |processes| + Count(s.exhaustedClaims, id)
  {
    var t := Next(l, s, step);
    if id == step.id && !step.allowExhausted {
      assert Waiting(t, id) == Waiting(s, id) + {step.process};
      SubsetCount(Waiting(t, id), processes);
    } else {
      assert Waiting(t, id) == Waiting(s, id);
    }
  }

  lemma BeginKeepsBudget(l: Limits, s: State, step: Step, processes: set<string>)
    requires BudgetInv(l, s, processes) && step.BeginClaim? && Enabled(l, s, step)
    requires !step.allowExhausted ==> step.process in processes
    ensures BudgetInv(l, Next(l, s, step), processes)
  {
    forall id
      ensures Waiting(Next(l, s, step), id) <= processes
      ensures id in s.rows ==>
        s.rows[id].attemptCount + |Waiting(Next(l, s, step), id)|
          <= l.maxAttempts - 1 + |processes| + Count(s.exhaustedClaims, id)
    {
      BeginKeepsRowBudget(l, s, step, processes, id);
    }
  }

  lemma FinishedProcessStopsWaiting(s: State, process: string, id: Uuid)
    requires process in s.inFlight
    ensures Waiting(AfterClaim(s, process), id) == Waiting(s, id) - {process}
    ensures process in Waiting(s, id) <==> s.inFlight[process].row == id && !s.inFlight[process].allowExhausted
    ensures |Waiting(AfterClaim(s, process), id)| == |Waiting(s, id)| - if process in Waiting(s, id) then 1 else 0
  {
    assert AfterClaim(s, process).inFlight == s.inFlight - {process};
  }

  lemma FinishKeepsBudget(l: Limits, s: State, process: string, processes: set<string>)
    requires BudgetInv(l, s, processes) && process in s.inFlight
    ensures BudgetInv(l, AfterClaim(s, process), processes)
  {
    var t := AfterClaim(s, process);
    forall id
      ensures Waiting(t, id) <= processes
      ensures id in t.rows ==>
        t.rows[id].attemptCount + |Waiting(t, id)| <= l.maxAttempts - 1 + |processes| + Count(t.exhaustedClaims, id)
    {
      FinishedProcessStopsWaiting(s, process, id);
    }
  }

  lemma StepKeepsBudget(l: Limits, s: State, step: Step, processes: set<string>)
    requires ValidLimits(l) && BudgetInv(l, s, processes) && ReadsCurrent(s) && Enabled(l, s, step)
    requires step.BeginClaim? && !step.allowExhausted ==> step.process in processes
    ensures BudgetInv(l, Next(l, s, step), processes)
  {
    var t := Next(l, s, step);
    match step {
      case BeginClaim(_, _, _, _, _) => BeginKeepsBudget(l, s, step, processes);
      case FinishClaim(process) => FinishKeepsBudget(l, s, process, processes);
      case Create(_, outboxId, _) =>
        assert forall id :: Waiting(t, id) == Waiting(s, id);
        assert Waiting(s, outboxId) == {};
      case _ =>
        assert forall id :: Waiting(t, id) == Waiting(s, id);
    }
  }

  /**
   With w ordinary processes, each reading and claiming in turn, and R claims made with
   allow_exhausted, no row of any reachable table has more than max_attempts + (w - 1) + R
   attempts; replays do not help a row past it either.
   */
  lemma {:induction false} AttemptsAreBounded(l: Limits, steps: seq<Step>, processes: set<string>)
    requires ValidLimits(l) && OrdinaryProcesses(steps, processes)
    ensures BudgetInv(l, Reached(l, steps), processes)
    ensures forall id :: id in Reached(l, steps).rows ==>
      Reached(l, steps).rows[id].attemptCount
        <= l.maxAttempts + (|processes| - 1) + Count(Reached(l, steps).exhaustedClaims, id)
  {
    if steps != [] {
      var front := steps[..|steps| - 1];
      var step := steps[|steps| - 1];
      AttemptsAreBounded(l, front, processes);
      AlwaysFenced(l, front);
      if Enabled(l, Reached(l, front), step) {
        StepKeepsBudget(l, Reached(l, front), step, processes);
      }
    }
  }

  // ---------- The bound is reached ----------

  /** A row at rest at time 0: pending, due, and young. */
  ghost predicate Rested(s: State, id: Uuid, attempts: nat) {
    && id in s.rows && s.rows[id].status.Pending? && s.rows[id].nextAttemptAt == Some(0)
    && s.rows[id].createdAt == 0 && s.rows[id].attemptCount == attempts
    && Count(s.exhaustedClaims, id) == 0
  }

  /** An ordinary read of the row at time 0, while it had `seen` attempts. */
  predicate OldRead(r: Read, id: Uuid, seen: nat) {
    r.row == id && r.count == seen && !r.allowExhausted && r.now == 0
  }

  /** The workers from `i` on have read the row while it had `seen` attempts. */
  ghost predicate HaveRead(s: State, id: Uuid, workers: seq<string>, i: nat, seen: nat) {
    forall k :: i <= k < |workers| ==>
      workers[k] in s.inFlight && OldRead(s.inFlight[workers[k]], id, seen)
  }

  ghost predicate DistinctNames(workers: seq<string>) {
    && (forall k :: 0 <= k < |workers| ==> workers[k] != "")
    && (forall j, k :: 0 <= j < k < |workers| ==> workers[j] != workers[k])
  }

  ghost predicate Plain(steps: seq<Step>, workers: seq<string>) {
    && ReplayFree(steps)
    && (forall i :: 0 <= i < |steps| && steps[i].BeginClaim? ==>
          !steps[i].allowExhausted && steps[i].process in workers)
  }

  /** A claim from a read in flight, freed again by a stale sweep. */
  lemma ClaimAndFree(l: Limits, steps: seq<Step>, id: Uuid, worker: string, attempts: nat, workers: seq<string>)
    returns (more: seq<Step>)
    requires Rested(Reached(l, steps), id, attempts) && Plain(steps, workers)
    requires worker in Reached(l, steps).inFlight
    requires Reached(l, steps).inFlight[worker].row == id && Reached(l, steps).inFlight[worker].now == 0
    requires !Reached(l, steps).inFlight[worker].allowExhausted
    ensures Rested(Reached(l, more), id, attempts + 1) && Plain(more, workers)
    ensures Reached(l, more).inFlight == Reached(l, steps).inFlight - {worker}
    ensures Reached(l, more).replays == Reached(l, steps).replays
  {
    var s0 := Reached(l, steps);
    RunOneMore(l, steps, FinishClaim(worker));
    var p1 := steps + [FinishClaim(worker)];
    RunOneMore(l, p1, ReadMetadata(id));
    var p2 := p1 + [ReadMetadata(id)];
    var free := Finish(id, RequeueStale(0, 0, "", Reached(l, p1).rows[id].metadata));
    RunOneMore(l, p2, free);
    more := p2 + [free];
  }

  lemma BeginRead(l: Limits, steps: seq<Step>, id: Uuid, worker: string, attempts: nat, workers: seq<string>)
    returns (more: seq<Step>)
    requires ValidLimits(l) && Rested(Reached(l, steps), id, attempts) && Plain(steps, workers)
    requires attempts < l.maxAttempts && worker != "" && worker in workers && worker !in Reached(l, steps).inFlight
    ensures Rested(Reached(l, more), id, attempts) && Plain(more, workers)
    ensures Reached(l, more).inFlight ==
      Reached(l, steps).inFlight[worker := ReadOf(Reached(l, steps), worker, id, 0, false)]
    ensures Reached(l, more).replays == Reached(l, steps).replays
  {
    var step := BeginClaim(worker, worker, id, 0, false);
    RunOneMore(l, steps, step);
    more := steps + [step];
  }

  /** One worker alone brings the row to one attempt below the limit. */
  lemma {:induction false} UseUpAttempts(l: Limits, record: IngressRecord, id: Uuid, workers: seq<string>, n: nat)
    returns (steps: seq<Step>)
    requires ValidLimits(l) && Eligible(record) && workers != [] && DistinctNames(workers) && n < l.maxAttempts
    ensures Rested(Reached(l, steps), id, n) && Plain(steps, workers)
    ensures Reached(l, steps).inFlight == map[]
  {
    if n == 0 {
      RunOneMore(l, [], Create(record, id, Some(0)));
      steps := [] + [Create(record, id, Some(0))];
    } else {
      steps := UseUpAttempts(l, record, id, workers, n - 1);
      steps := BeginRead(l, steps, id, workers[0], n - 1, workers);
      steps := ClaimAndFree(l, steps, id, workers[0], n - 1, workers);
      assert Reached(l, steps).inFlight == map[];
    }
  }

  /** Then all workers read it. */
  lemma {:induction false} AllRead(l: Limits, record: IngressRecord, id: Uuid, workers: seq<string>, i: nat)
    returns (steps: seq<Step>)
    requires ValidLimits(l) && Eligible(record) && workers != [] && DistinctNames(workers) && i <= |workers|
    ensures Rested(Reached(l, steps), id, l.maxAttempts - 1) && Plain(steps, workers)
    ensures HaveRead(Reached(l, steps), id, workers, i, l.maxAttempts - 1)
    ensures forall w :: w in Reached(l, steps).inFlight ==> exists k :: i <= k < |workers| && workers[k] == w
    decreases |workers| - i
  {
    if i == |workers| {
      steps := UseUpAttempts(l, record, id, workers, l.maxAttempts - 1);
    } else {
      steps := AllRead(l, record, id, workers, i + 1);
      steps := BeginRead(l, steps, id, workers[i], l.maxAttempts - 1, workers);
    }
  }

  /** And claim it one after the other, each on its old read. */
  lemma {:induction false} AllClaim(l: Limits, record: IngressRecord, id: Uuid, workers: seq<string>, i: nat)
    returns (steps: seq<Step>)
    requires ValidLimits(l) && Eligible(record) && workers != [] && DistinctNames(workers) && i <= |workers|
    ensures Rested(Reached(l, steps), id, l.maxAttempts - 1 + i) && Plain(steps, workers)
    ensures HaveRead(Reached(l, steps), id, workers, i, l.maxAttempts - 1)
  {
    if i == 0 {
      steps := AllRead(l, record, id, workers, 0);
    } else {
      steps := AllClaim(l, record, id, workers, i - 1);
      steps := ClaimAndFree(l, steps, id, workers[i - 1], l.maxAttempts - 1 + i - 1, workers);
    }
  }

  /**
   For every number of workers there is a run, without replays and without allow_exhausted, in
   which a row ends up with exactly max_attempts + (w - 1) attempts.
   */
  lemma BoundIsReached(l: Limits, record: IngressRecord, id: Uuid, workers: seq<string>) returns (steps: seq<Step>)
    requires ValidLimits(l) && Eligible(record) && workers != [] && DistinctNames(workers)
    ensures ReplayFree(steps) && OrdinaryProcesses(steps, set w | w in workers)
    ensures id in Reached(l, steps).rows && Count(Reached(l, steps).exhaustedClaims, id) == 0
    ensures Reached(l, steps).rows[id].attemptCount == l.maxAttempts + (|workers| - 1)
  {
    steps := AllClaim(l, record, id, workers, |workers|);
  }
}
