/**
 Claim fencing: two successful claims with one claim id have an operator replay of their row
 between them, or come from reads that overlapped under one worker id. So an update made with a
 superseded claim hits nothing, as long as neither happens.
 */
module OutboxFencing {
  import opened Wrappers
  import opened Outbox
  import opened OutboxProtocol

  /** Lexicographic order on (epoch, ordinal). */
  predicate NotAfter(epoch: nat, ordinal: nat, epoch': nat, ordinal': nat) {
    epoch < epoch' || (epoch == epoch' && ordinal <= ordinal')
  }

  predicate StrictlyBefore(epoch: nat, ordinal: nat, epoch': nat, ordinal': nat) {
    epoch < epoch' || (epoch == epoch' && ordinal < ordinal')
  }

  /** The stamp (epoch, ordinal) is not ahead of the row. */
  predicate Current(s: State, id: Uuid, epoch: nat, ordinal: nat) {
    id in s.rows && NotAfter(epoch, ordinal, Count(s.replays, id), s.rows[id].attemptCount)
  }

  /** No read in flight is ahead of its row. */
  ghost predicate ReadsCurrent(s: State) {
    forall p :: p in s.inFlight ==>
      && Current(s, s.inFlight[p].row, s.inFlight[p].epoch, s.inFlight[p].count)
      && s.inFlight[p].begun <= |s.claims|
  }

  /** No claim is ahead of its row, and its id is the one derived for it. */
  ghost predicate ClaimsCurrent(s: State) {
    forall k :: 0 <= k < |s.claims| ==>
      && Current(s, s.claims[k].row, s.claims[k].epoch, s.claims[k].ordinal)
      && s.claims[k].claimId == Uuid5(ClaimSeed(s.claims[k].row, s.claims[k].worker, s.claims[k].ordinal))
      && s.claims[k].begun <= k
  }

  predicate SeenBy(c: ClaimEvent, k: int, r: Read) {
    k < r.begun && c.row == r.row
  }

  /** A read is not older than the claims of its row that were there when it was made. */
  ghost predicate ReadsSeeClaims(s: State) {
    forall p, k :: p in s.inFlight && 0 <= k < |s.claims| && SeenBy(s.claims[k], k, s.inFlight[p]) ==>
      NotAfter(s.claims[k].epoch, s.claims[k].ordinal, s.inFlight[p].epoch, s.inFlight[p].count)
  }

  /** The later claim of one row was read for after the earlier one had been made. */
  predicate ReadAfter(s: State, j: int, k: int)
    requires 0 <= j < |s.claims| && 0 <= k < |s.claims|
  {
    j < s.claims[k].begun && s.claims[j].row == s.claims[k].row
  }

  /** Claims of one row that follow each other have growing stamps. */
  ghost predicate ClaimsGrow(s: State) {
    forall j, k :: 0 <= j < k < |s.claims| && ReadAfter(s, j, k) ==>
      StrictlyBefore(s.claims[j].epoch, s.claims[j].ordinal, s.claims[k].epoch, s.claims[k].ordinal)
  }

  /** Claim `k` is the latest claim of its row. */
  ghost predicate LatestClaim(s: State, k: int) {
    && 0 <= k < |s.claims|
    && (forall j :: k < j < |s.claims| ==> s.claims[j].row != s.claims[k].row)
  }

  /** A claimed row carries the id of the latest claim made of it. */
  ghost predicate HolderIsLatest(s: State) {
    forall id :: id in s.rows && s.rows[id].status.Claimed? ==>
      exists k :: LatestClaim(s, k) && s.claims[k].row == id && s.rows[id].claimId == Some(s.claims[k].claimId)
  }

  ghost predicate FenceInv(s: State) {
    ReadsCurrent(s) && ClaimsCurrent(s) && ReadsSeeClaims(s) && ClaimsGrow(s) && HolderIsLatest(s)
  }

  // ---------- One step ----------

  /** Rows only move forward: no row disappears and no stamp falls back. */
  ghost predicate Forward(s: State, t: State) {
    forall id, epoch, ordinal :: Current(s, id, epoch, ordinal) ==> Current(t, id, epoch, ordinal)
  }

  lemma UpdateForward(s: State, id: Uuid, w: Write, t: State)
    requires t.rows == Update(s.rows, id, w)
    requires Hits(s.rows, id, w) && w.Replay? ==> t.replays == s.replays[id := Count(s.replays, id) + 1]
    requires !w.Replay? ==> t.replays == s.replays
    requires w.Replay? ==> Hits(s.rows, id, w)
    ensures Forward(s, t)
  {
    if Hits(s.rows, id, w) {
      WriteFrame(s.rows[id], w);
    }
  }

  lemma StepForward(l: Limits, s: State, step: Step)
    requires Enabled(l, s, step)
    ensures Forward(s, Next(l, s, step))
  {
    var t := Next(l, s, step);
    match step {
      case FinishClaim(process) =>
        UpdateForward(s, s.inFlight[process].row, ClaimOf(s.inFlight[process]), t);
      case Finish(id, write) => UpdateForward(s, id, write, t);
      case OperatorReplay(id, at, who, task) => UpdateForward(s, id, Replay(at, who, task), t);
      case _ =>
    }
  }

  /** Steps that neither read nor claim keep the stamps in order. */
  lemma QuietStep(s: State, t: State)
    requires FenceInv(s) && Forward(s, t) && t.inFlight == s.inFlight && t.claims == s.claims
    ensures ReadsCurrent(t) && ClaimsCurrent(t) && ReadsSeeClaims(t) && ClaimsGrow(t)
  {
    assert forall j, k :: 0 <= j < |s.claims| && 0 <= k < |s.claims| ==> ReadAfter(t, j, k) == ReadAfter(s, j, k);
  }

  /** An update other than a claim leaves a row claimed only if it did not touch it. */
  lemma QuietHolder(s: State, t: State)
    requires HolderIsLatest(s) && t.claims == s.claims
    requires forall id :: id in t.rows && t.rows[id].status.Claimed? ==> id in s.rows && s.rows[id] == t.rows[id]
    ensures HolderIsLatest(t)
  {
    forall id | id in t.rows && t.rows[id].status.Claimed?
      ensures exists k :: LatestClaim(t, k) && t.claims[k].row == id && t.rows[id].claimId == Some(t.claims[k].claimId)
    {
      var k :| LatestClaim(s, k) && s.claims[k].row == id && s.rows[id].claimId == Some(s.claims[k].claimId);
      assert LatestClaim(t, k);
    }
  }

  lemma BeginClaimStep(s: State, process: string, r: Read)
    requires FenceInv(s) && process !in s.inFlight && r.row in s.rows
    requires r == ReadOf(s, r.worker, r.row, r.now, r.allowExhausted)
    ensures FenceInv(AfterBegin(s, process, r))
  {
    var t := AfterBegin(s, process, r);
    QuietHolder(s, t);
    forall p, k | p in t.inFlight && 0 <= k < |t.claims| && SeenBy(t.claims[k], k, t.inFlight[p])
      ensures NotAfter(t.claims[k].epoch, t.claims[k].ordinal, t.inFlight[p].epoch, t.inFlight[p].count)
    {
      assert Current(s, s.claims[k].row, s.claims[k].epoch, s.claims[k].ordinal);
      assert p == process || SeenBy(s.claims[k], k, s.inFlight[p]);
    }
    assert forall j, k :: 0 <= j < |s.claims| && 0 <= k < |s.claims| ==> ReadAfter(t, j, k) == ReadAfter(s, j, k);
  }

  /** A claim that misses only ends the read. */
  lemma MissedClaimStep(s: State, process: string)
    requires FenceInv(s) && process in s.inFlight
    requires !Hits(s.rows, s.inFlight[process].row, ClaimOf(s.inFlight[process]))
    ensures FenceInv(AfterClaim(s, process))
  {
    var t := AfterClaim(s, process);
    QuietHolder(s, t);
    assert forall j, k :: 0 <= j < |s.claims| && 0 <= k < |s.claims| ==> ReadAfter(t, j, k) == ReadAfter(s, j, k);
  }

  lemma HitClaimStamps(s: State, process: string)
    requires FenceInv(s) && process in s.inFlight
    requires Hits(s.rows, s.inFlight[process].row, ClaimOf(s.inFlight[process]))
    ensures ReadsCurrent(AfterClaim(s, process)) && ClaimsCurrent(AfterClaim(s, process))
    ensures ReadsSeeClaims(AfterClaim(s, process))
  {
    var t := AfterClaim(s, process);
    var r := s.inFlight[process];
    var n := |s.claims|;
    UpdateForward(s, r.row, ClaimOf(r), t);
    assert Current(s, r.row, r.epoch, r.count);
    assert Current(t, r.row, r.epoch, r.count + 1);
    forall k | 0 <= k < |t.claims|
      ensures Current(t, t.claims[k].row, t.claims[k].epoch, t.claims[k].ordinal)
    {
      assert k == n || t.claims[k] == s.claims[k];
    }
    forall p, k | p in t.inFlight && 0 <= k < |t.claims| && SeenBy(t.claims[k], k, t.inFlight[p])
      ensures NotAfter(t.claims[k].epoch, t.claims[k].ordinal, t.inFlight[p].epoch, t.inFlight[p].count)
    {
      assert s.inFlight[p].begun <= n;
      assert SeenBy(s.claims[k], k, s.inFlight[p]);
    }
  }

  lemma HitClaimGrows(s: State, process: string)
    requires FenceInv(s) && process in s.inFlight
    requires Hits(s.rows, s.inFlight[process].row, ClaimOf(s.inFlight[process]))
    ensures ClaimsGrow(AfterClaim(s, process))
  {
    var t := AfterClaim(s, process);
    var r := s.inFlight[process];
    var n := |s.claims|;
    forall j, k | 0 <= j < k < |t.claims| && ReadAfter(t, j, k)
      ensures StrictlyBefore(t.claims[j].epoch, t.claims[j].ordinal, t.claims[k].epoch, t.claims[k].ordinal)
    {
      if k == n {
        assert SeenBy(s.claims[j], j, r);
      } else {
        assert ReadAfter(s, j, k);
      }
    }
  }

  lemma HitClaimHolder(s: State, process: string)
    requires HolderIsLatest(s) && process in s.inFlight
    requires Hits(s.rows, s.inFlight[process].row, ClaimOf(s.inFlight[process]))
    ensures HolderIsLatest(AfterClaim(s, process))
  {
    var t := AfterClaim(s, process);
    var r := s.inFlight[process];
    forall id | id in t.rows && t.rows[id].status.Claimed?
      ensures exists k :: LatestClaim(t, k) && t.claims[k].row == id && t.rows[id].claimId == Some(t.claims[k].claimId)
    {
      if id == r.row {
        assert LatestClaim(t, |s.claims|);
      } else {
        var k :| LatestClaim(s, k) && s.claims[k].row == id && s.rows[id].claimId == Some(s.claims[k].claimId);
        assert LatestClaim(t, k);
      }
    }
  }

  lemma StepKeepsFence(l: Limits, s: State, step: Step)
    requires FenceInv(s) && Enabled(l, s, step)
    ensures FenceInv(Next(l, s, step))
  {
    var t := Next(l, s, step);
    match step {
      case BeginClaim(process, worker, id, now, allowExhausted) =>
        BeginClaimStep(s, process, ReadOf(s, worker, id, now, allowExhausted));
      case FinishClaim(process) =>
        if Hits(s.rows, s.inFlight[process].row, ClaimOf(s.inFlight[process])) {
          HitClaimStamps(s, process);
          HitClaimGrows(s, process);
          HitClaimHolder(s, process);
        } else {
          MissedClaimStep(s, process);
        }
      case _ =>
        StepForward(l, s, step);
        QuietStep(s, t);
        QuietHolder(s, t);
    }
  }

  lemma {:induction false} AlwaysFenced(l: Limits, steps: seq<Step>)
    ensures FenceInv(Reached(l, steps))
  {
    if steps != [] {
      var front := steps[..|steps| - 1];
      AlwaysFenced(l, front);
      if Enabled(l, Reached(l, front), steps[|steps| - 1]) {
        StepKeepsFence(l, Reached(l, front), steps[|steps| - 1]);
      }
    }
  }

  // ---------- Equal claim ids ----------

  /** Two claims of one row by one worker id with one ordinal: the claims that share a claim id. */
  predicate SameClaim(a: ClaimEvent, b: ClaimEvent) {
    a.row == b.row && a.worker == b.worker && a.ordinal == b.ordinal
  }

  /** The read for claim `k` was made before the earlier claim `j` took its row. */
  predicate Overlaps(s: State, j: nat, k: nat)
    requires j < k < |s.claims|
  {
    s.claims[k].begun <= j
  }

  /**
   In every run, two successful claims with one claim id are of one row and one worker id, and an
   operator replay of the row lies between their reads or their reads overlapped.
   */
  lemma EqualClaimIdsSpanOrOverlap(l: Limits, steps: seq<Step>, j: nat, k: nat)
    requires j < k < |Reached(l, steps).claims|
    requires Reached(l, steps).claims[j].claimId == Reached(l, steps).claims[k].claimId
    ensures SameClaim(Reached(l, steps).claims[j], Reached(l, steps).claims[k])
    ensures Reached(l, steps).claims[j].epoch < Reached(l, steps).claims[k].epoch || Overlaps(Reached(l, steps), j, k)
  {
    var s := Reached(l, steps);
    AlwaysFenced(l, steps);
    var (a, b) := (s.claims[j], s.claims[k]);
    ClaimSeedInjective(a.row, a.worker, a.ordinal, b.row, b.worker, b.ordinal);
    assert ReadAfter(s, j, k) <==> !Overlaps(s, j, k);
  }

  // ---------- Worker ids that are used sequentially ----------

  ghost predicate Idle(s: State, worker: string) {
    forall p :: p in s.inFlight ==> s.inFlight[p].worker != worker
  }

  /** No process reads under the worker id while another one has a read in flight under it. */
  ghost predicate Sequential(l: Limits, steps: seq<Step>, worker: string)
    decreases |steps|
  {
    steps != [] ==>
      var (front, step) := (steps[..|steps| - 1], steps[|steps| - 1]);
      && Sequential(l, front, worker)
      && (step.BeginClaim? && step.worker == worker ==> Idle(Reached(l, front), worker))
  }

  predicate InFlightBy(s: State, p: string, worker: string) {
    p in s.inFlight && s.inFlight[p].worker == worker
  }

  predicate ClaimBy(s: State, k: int, worker: string) {
    0 <= k < |s.claims| && s.claims[k].worker == worker
  }

  /** The worker id has one read in flight at most, made after all its claims, and no two of its claims overlap. */
  ghost predicate SequentialInv(s: State, worker: string) {
    && (forall p, q :: InFlightBy(s, p, worker) && InFlightBy(s, q, worker) ==> p == q)
    && (forall p, k :: InFlightBy(s, p, worker) && ClaimBy(s, k, worker) ==> k < s.inFlight[p].begun)
    && (forall j, k :: ClaimBy(s, j, worker) && ClaimBy(s, k, worker) && j < k ==> j < s.claims[k].begun)
  }

  lemma SequentialBegin(s: State, process: string, r: Read, worker: string)
    requires SequentialInv(s, worker) && process !in s.inFlight && r.begun == |s.claims|
    requires r.worker == worker ==> Idle(s, worker)
    ensures SequentialInv(AfterBegin(s, process, r), worker)
  {
    var t := AfterBegin(s, process, r);
    assert forall p :: InFlightBy(t, p, worker) ==> InFlightBy(s, p, worker) || (p == process && r.worker == worker);
    assert forall k :: ClaimBy(t, k, worker) <==> ClaimBy(s, k, worker);
  }

  lemma SequentialClaim(s: State, process: string, worker: string)
    requires SequentialInv(s, worker) && process in s.inFlight
    ensures SequentialInv(AfterClaim(s, process), worker)
  {
    var t := AfterClaim(s, process);
    var n := |s.claims|;
    assert forall p :: InFlightBy(t, p, worker) ==> InFlightBy(s, p, worker) && p != process;
    assert forall k :: ClaimBy(t, k, worker) ==> ClaimBy(s, k, worker) || (k == n && InFlightBy(s, process, worker));
    forall p, k | InFlightBy(t, p, worker) && ClaimBy(t, k, worker)
      ensures k < t.inFlight[p].begun
    {
      assert k < n;
    }
  }

  lemma StepKeepsSequential(l: Limits, s: State, step: Step, worker: string)
    requires SequentialInv(s, worker) && Enabled(l, s, step)
    requires step.BeginClaim? && step.worker == worker ==> Idle(s, worker)
    ensures SequentialInv(Next(l, s, step), worker)
  {
    var t := Next(l, s, step);
    match step {
      case BeginClaim(process, reader, id, now, allowExhausted) =>
        SequentialBegin(s, process, ReadOf(s, reader, id, now, allowExhausted), worker);
      case FinishClaim(process) => SequentialClaim(s, process, worker);
      case _ =>
        assert forall p :: InFlightBy(t, p, worker) <==> InFlightBy(s, p, worker);
        assert forall k :: ClaimBy(t, k, worker) <==> ClaimBy(s, k, worker);
    }
  }

  lemma {:induction false} AlwaysSequential(l: Limits, steps: seq<Step>, worker: string)
    requires Sequential(l, steps, worker)
    ensures SequentialInv(Reached(l, steps), worker)
    decreases |steps|
  {
    if steps != [] {
      var front := steps[..|steps| - 1];
      AlwaysSequential(l, front, worker);
      if Enabled(l, Reached(l, front), steps[|steps| - 1]) {
        StepKeepsSequential(l, Reached(l, front), steps[|steps| - 1], worker);
      }
    }
  }

  /** When a worker id is used sequentially, only a replay of the row gives it a claim id a second time. */
  lemma EqualClaimIdsSpanAReplay(l: Limits, steps: seq<Step>, j: nat, k: nat)
    requires j < k < |Reached(l, steps).claims| && Sequential(l, steps, Reached(l, steps).claims[j].worker)
    requires Reached(l, steps).claims[j].claimId == Reached(l, steps).claims[k].claimId
    ensures SameClaim(Reached(l, steps).claims[j], Reached(l, steps).claims[k])
    ensures Reached(l, steps).claims[j].epoch < Reached(l, steps).claims[k].epoch
  {
    EqualClaimIdsSpanOrOverlap(l, steps, j, k);
    var (s, worker) := (Reached(l, steps), Reached(l, steps).claims[j].worker);
    AlwaysSequential(l, steps, worker);
    assert ClaimBy(s, j, worker) && ClaimBy(s, k, worker);
  }

  /** A row that is not replayed stays in its first epoch. */
  lemma {:induction false} FirstEpoch(l: Limits, steps: seq<Step>, id: Uuid)
    requires Unreplayed(steps, id)
    ensures Count(Reached(l, steps).replays, id) == 0
    ensures forall p :: p in Reached(l, steps).inFlight && Reached(l, steps).inFlight[p].row == id ==>
      Reached(l, steps).inFlight[p].epoch == 0
    ensures forall k :: 0 <= k < |Reached(l, steps).claims| && Reached(l, steps).claims[k].row == id ==>
      Reached(l, steps).claims[k].epoch == 0
  {
    if steps != [] {
      var (front, step) := (steps[..|steps| - 1], steps[|steps| - 1]);
      FirstEpoch(l, front, id);
      assert step.OperatorReplay? ==> step.id != id;
      if Enabled(l, Reached(l, front), step) {
        FirstEpochStep(l, Reached(l, front), step, id);
      }
    }
  }

  lemma FirstEpochStep(l: Limits, s: State, step: Step, id: Uuid)
    requires Enabled(l, s, step) && (step.OperatorReplay? ==> step.id != id)
    requires Count(s.replays, id) == 0
    requires forall p :: p in s.inFlight && s.inFlight[p].row == id ==> s.inFlight[p].epoch == 0
    requires forall k :: 0 <= k < |s.claims| && s.claims[k].row == id ==> s.claims[k].epoch == 0
    ensures var t := Next(l, s, step);
      && Count(t.replays, id) == 0
      && (forall p :: p in t.inFlight && t.inFlight[p].row == id ==> t.inFlight[p].epoch == 0)
      && (forall k :: 0 <= k < |t.claims| && t.claims[k].row == id ==> t.claims[k].epoch == 0)
  {
  }

  /** The claims of a row that is not replayed, by worker ids used sequentially, all have ids of their own. */
  lemma ClaimIdsAreUnique(l: Limits, steps: seq<Step>, j: nat, k: nat)
    requires j < k < |Reached(l, steps).claims| && Sequential(l, steps, Reached(l, steps).claims[j].worker)
    requires Unreplayed(steps, Reached(l, steps).claims[j].row)
    ensures Reached(l, steps).claims[j].claimId != Reached(l, steps).claims[k].claimId
  {
    if Reached(l, steps).claims[j].claimId == Reached(l, steps).claims[k].claimId {
      EqualClaimIdsSpanAReplay(l, steps, j, k);
      FirstEpoch(l, steps, Reached(l, steps).claims[j].row);
      assert false;
    }
  }

  // ---------- Updates that end a claim ----------

  predicate EndsClaim(w: Write, claimId: ClaimId) {
    match w
    case MarkDispatched(c, _) => c == claimId
    case Reschedule(c, _, _, _) => c == claimId
    case DeadLetter(c, _, _, _) => c == claimId
    case _ => false
  }

  /** A claim is in force while its row is claimed and nobody has claimed the row since. */
  ghost predicate InForce(s: State, k: int) {
    LatestClaim(s, k) && s.claims[k].row in s.rows && s.rows[s.claims[k].row].status.Claimed?
  }

  /**
   In every run, marking dispatched, rescheduling or dead-lettering with the id of a claim hits the
   row exactly when a claim in force has the same row, worker id and ordinal.
   */
  lemma EndingHitsSameClaim(l: Limits, steps: seq<Step>, k: nat, w: Write)
    requires k < |Reached(l, steps).claims|
    requires EndsClaim(w, Reached(l, steps).claims[k].claimId)
    ensures Hits(Reached(l, steps).rows, Reached(l, steps).claims[k].row, w) <==>
      exists h :: InForce(Reached(l, steps), h) && SameClaim(Reached(l, steps).claims[h], Reached(l, steps).claims[k])
  {
    var s := Reached(l, steps);
    var c := s.claims[k];
    AlwaysFenced(l, steps);
    if c.row in s.rows && s.rows[c.row].status.Claimed? {
      var h :| LatestClaim(s, h) && s.claims[h].row == c.row && s.rows[c.row].claimId == Some(s.claims[h].claimId);
      var latest := s.claims[h];
      assert InForce(s, h);
      ClaimSeedInjective(latest.row, latest.worker, latest.ordinal, c.row, c.worker, c.ordinal);
      assert forall i :: InForce(s, i) && s.claims[i].row == c.row ==> i == h;
    }
  }

  /** No later claim of the row under the same worker id was read for before claim `k` took the row. */
  ghost predicate NotOverlapped(s: State, k: nat)
    requires k < |s.claims|
  {
    forall h :: k < h < |s.claims| && s.claims[h].row == s.claims[k].row && s.claims[h].worker == s.claims[k].worker ==>
      !Overlaps(s, k, h)
  }

  lemma SequentialIsNotOverlapped(l: Limits, steps: seq<Step>, k: nat)
    requires k < |Reached(l, steps).claims| && Sequential(l, steps, Reached(l, steps).claims[k].worker)
    ensures NotOverlapped(Reached(l, steps), k)
  {
    var (s, worker) := (Reached(l, steps), Reached(l, steps).claims[k].worker);
    AlwaysSequential(l, steps, worker);
    assert ClaimBy(s, k, worker);
    assert forall h :: k < h < |s.claims| && s.claims[h].worker == worker ==> ClaimBy(s, h, worker);
  }

  /**
   Since the last replay of its row, the id of a claim that is not overlapped hits the row exactly
   while that claim is in force; afterwards the update changes nothing.
   */
  lemma EndingHitsExactlyInForce(l: Limits, steps: seq<Step>, k: nat, w: Write)
    requires k < |Reached(l, steps).claims| && NotOverlapped(Reached(l, steps), k)
    requires Reached(l, steps).claims[k].epoch == Count(Reached(l, steps).replays, Reached(l, steps).claims[k].row)
    requires EndsClaim(w, Reached(l, steps).claims[k].claimId)
    ensures Hits(Reached(l, steps).rows, Reached(l, steps).claims[k].row, w) <==> InForce(Reached(l, steps), k)
    ensures !InForce(Reached(l, steps), k) ==>
      Update(Reached(l, steps).rows, Reached(l, steps).claims[k].row, w) == Reached(l, steps).rows
  {
    var s := Reached(l, steps);
    EndingHitsSameClaim(l, steps, k, w);
    AlwaysFenced(l, steps);
    if h :| InForce(s, h) && SameClaim(s.claims[h], s.claims[k]) && h != k {
      OneClaimPerStamp(s, h, k);
    }
  }

  /** A claim in force with the same stamp but a later read is of a later epoch. */
  lemma OneClaimPerStamp(s: State, h: nat, k: nat)
    requires FenceInv(s) && h < |s.claims| && k < |s.claims| && h != k && InForce(s, h)
    requires SameClaim(s.claims[h], s.claims[k]) && NotOverlapped(s, k)
    ensures s.claims[k].epoch != Count(s.replays, s.claims[k].row)
  {
    var (a, b) := (s.claims[h], s.claims[k]);
    if k < h {
      assert !Overlaps(s, k, h);
      assert ReadAfter(s, k, h);
      assert Current(s, a.row, a.epoch, a.ordinal);
    }
  }

  // ---------- Where fencing ends ----------

  /**
   A replay does let a claim id come back: the reconciler gives up on an over-age row, an operator
   replays it, and when the row is over age again the reconciler's second claim has the id of its
   first one. A dead-letter update meant for the first claim then hits the second.
   */
  lemma ReplayReusesClaimId(l: Limits, record: IngressRecord, outboxId: Uuid) returns (steps: seq<Step>)
    requires ValidLimits(l) && Eligible(record)
    ensures |Reached(l, steps).claims| == 2
    ensures Reached(l, steps).claims[0].claimId == Reached(l, steps).claims[1].claimId
    ensures !Overlaps(Reached(l, steps), 0, 1) && !InForce(Reached(l, steps), 0)
    ensures forall at, m ::
      Hits(Reached(l, steps).rows, outboxId, DeadLetter(Reached(l, steps).claims[0].claimId, "", at, m))
  {
    var age := l.maxAgeSeconds;
    var create := Create(record, outboxId, Some(0));
    RunOneMore(l, [], create);
    steps := [] + [create];
    steps := GiveUp(l, steps, outboxId, age);
    var again := OperatorReplay(outboxId, age, "", "");
    RunOneMore(l, steps, again);
    steps := steps + [again];
    steps := ReadAndClaim(l, steps, "p", RECONCILER, outboxId, 2 * age, true);
  }

  /** The reconciler claims an over-age row and dead-letters it. */
  lemma GiveUp(l: Limits, steps: seq<Step>, id: Uuid, now: int) returns (more: seq<Step>)
    requires id in Reached(l, steps).rows && "p" !in Reached(l, steps).inFlight
    requires MayClaim(l, Reached(l, steps).rows[id], now, true)
    ensures id in Reached(l, more).rows && Reached(l, more).rows[id].status.DeadLettered?
    ensures Reached(l, more).inFlight == Reached(l, steps).inFlight
    ensures Reached(l, more).replays == Reached(l, steps).replays
    ensures Reached(l, more).claims ==
      Reached(l, steps).claims + [EventOf(ReadOf(Reached(l, steps), RECONCILER, id, now, true))]
  {
    var claimed := ReadAndClaim(l, steps, "p", RECONCILER, id, now, true);
    var s := Reached(l, claimed);
    RunOneMore(l, claimed, ReadMetadata(id));
    var giveUp := Finish(id, DeadLetter(s.rows[id].claimId.value, "", now, s.rows[id].metadata));
    RunOneMore(l, claimed + [ReadMetadata(id)], giveUp);
    more := claimed + [ReadMetadata(id)] + [giveUp];
  }

  /**
   Nor does fencing hold when reads overlap under one worker id, as those of two dead-letter sweeps
   at once do: both read the exhausted row, one claims it, a stale sweep frees it, the other claims
   it on its old read with the same id, and the first one's dead-letter update ends that claim.
   */
  lemma OverlappingSweepsShareClaimId(l: Limits, record: IngressRecord, outboxId: Uuid) returns (steps: seq<Step>)
    requires ValidLimits(l) && Eligible(record)
    ensures ReplayFree(steps) && |Reached(l, steps).claims| == 2
    ensures Reached(l, steps).claims[0].claimId == Reached(l, steps).claims[1].claimId
    ensures Overlaps(Reached(l, steps), 0, 1) && !InForce(Reached(l, steps), 0)
    ensures forall at, m ::
      Hits(Reached(l, steps).rows, outboxId, DeadLetter(Reached(l, steps).claims[0].claimId, "", at, m))
  {
    steps := TwoSweepsRead(l, record, outboxId);
    steps := ClaimedAndFreed(l, steps, outboxId, l.maxAgeSeconds);
    steps := Extend(l, steps, FinishClaim("q"));
  }

  predicate BothRead(s: State, id: Uuid, now: int) {
    && id in s.rows && s.rows[id].status.Pending? && AtMost(s.rows[id].nextAttemptAt, now) && s.claims == []
    && s.inFlight == map["p" := ReadOf(s, RECONCILER, id, now, true), "q" := ReadOf(s, RECONCILER, id, now, true)]
  }

  /** Two sweeps have read the row when it was over age. */
  lemma TwoSweepsRead(l: Limits, record: IngressRecord, id: Uuid) returns (steps: seq<Step>)
    requires ValidLimits(l) && Eligible(record)
    ensures ReplayFree(steps) && BothRead(Reached(l, steps), id, l.maxAgeSeconds)
    ensures Exhausted(l, Reached(l, steps).rows[id], l.maxAgeSeconds)
  {
    var age := l.maxAgeSeconds;
    steps := Extend(l, [], Create(record, id, Some(0)));
    steps := Extend(l, steps, BeginClaim("p", RECONCILER, id, age, true));
    steps := Extend(l, steps, BeginClaim("q", RECONCILER, id, age, true));
  }

  /** The first sweep has claimed the row and a stale sweep has freed it, while the second one's read is in flight. */
  lemma ClaimedAndFreed(l: Limits, steps: seq<Step>, id: Uuid, now: int) returns (more: seq<Step>)
    requires ReplayFree(steps) && BothRead(Reached(l, steps), id, now)
    ensures ReplayFree(more)
    ensures
      var (s, t) := (Reached(l, steps), Reached(l, more));
      && id in t.rows && t.rows[id].status.Pending? && AtMost(t.rows[id].nextAttemptAt, now)
      && t.claims == [EventOf(s.inFlight["p"])] && t.inFlight == map["q" := s.inFlight["q"]]
  {
    more := Extend(l, steps, FinishClaim("p"));
    more := Extend(l, more, ReadMetadata(id));
    var metadata := Reached(l, more).rows[id].metadata;
    more := Extend(l, more, Finish(id, RequeueStale(now, now, "", metadata)));
  }
}
