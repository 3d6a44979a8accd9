/**
 The claim protocol of the outbox as a state machine. Processes read a row in one step and send
 the guarded claim in a later one; sweeps and finishing workers read metadata in one step and
 overwrite it in a later one. Every interleaving of those steps is a run.
 */
module OutboxProtocol {
  import opened Wrappers
  import opened Outbox

  // ---------- States and steps ----------

  /**
   A process between its read of a row and its claim. `epoch` counts the replays of the row before
   the read, `begun` the successful claims of any row before it.
   */
  datatype Read = Read(
    row: Uuid, worker: string, count: nat, allowExhausted: bool, now: int, epoch: nat, begun: nat)

  /** A claim that hit its row; all but its id come from the read it was based on. */
  datatype ClaimEvent = ClaimEvent(
    row: Uuid, worker: string, ordinal: nat, epoch: nat, claimId: ClaimId, begun: nat)

  /**
   The table, the reads in flight by process (a process without one is idle), every metadata
   snapshot taken so far, and a history that no step looks at: the rows as created, the successful
   claims, and per row the number of replays and of claims made with allow_exhausted. Several
   processes may use one worker id.
   */
  datatype State = State(
    rows: Table, inFlight: map<string, Read>, snapshots: set<(Uuid, Metadata)>,
    born: Table, claims: seq<ClaimEvent>, replays: map<Uuid, nat>, exhaustedClaims: map<Uuid, nat>)

  const INITIAL: State := State(map[], map[], {}, map[], [], map[], map[])

  function Count(m: map<Uuid, nat>, id: Uuid): nat {
    if id in m then m[id] else 0
  }

  datatype Step =
    | Create(record: IngressRecord, outboxId: Uuid, createdAt: Option<int>)
    | BeginClaim(process: string, worker: string, id: Uuid, now: int, allowExhausted: bool)
    | FinishClaim(process: string)
    | ReadMetadata(id: Uuid)
    | Finish(id: Uuid, write: Write)
    | OperatorReplay(id: Uuid, replayedAt: int, replayedBy: string, taskId: string)

  /** The runtime goes on to send the claim after reading this row. */
  predicate MayClaim(l: Limits, row: Row, now: int, allowExhausted: bool) {
    row.status.Pending? && AtMost(row.nextAttemptAt, now) && (allowExhausted || !Exhausted(l, row, now))
  }

  /** One of the four updates that end a claim, with a snapshot that was read before. */
  predicate FinishingWrite(s: State, id: Uuid, w: Write) {
    match w
    case MarkDispatched(_, _) => true
    case Reschedule(_, _, _, snapshot) => (id, snapshot) in s.snapshots
    case DeadLetter(_, _, _, snapshot) => (id, snapshot) in s.snapshots
    case RequeueStale(_, _, _, snapshot) => (id, snapshot) in s.snapshots
    case _ => false
  }

  predicate Enabled(l: Limits, s: State, step: Step) {
    match step
    case Create(record, outboxId, createdAt) =>
      var made := MakeRow(record, outboxId, createdAt);
      made.Some? && !KnownIngress(s.rows, record.ingressId) && outboxId !in s.rows
    case BeginClaim(process, worker, id, now, allowExhausted) =>
      worker != "" && process !in s.inFlight && id in s.rows && MayClaim(l, s.rows[id], now, allowExhausted)
    case FinishClaim(process) => process in s.inFlight
    case ReadMetadata(id) => true
    case Finish(id, write) => FinishingWrite(s, id, write)
    case OperatorReplay(id, at, who, task) => Hits(s.rows, id, Replay(at, who, task))
  }

  /** The claim that a read leads to. */
  function ClaimOf(r: Read): Write {
    ClaimFor(r.row, r.worker, r.count + 1, r.now)
  }

  function EventOf(r: Read): ClaimEvent {
    ClaimEvent(r.row, r.worker, r.count + 1, r.epoch, Uuid5(ClaimSeed(r.row, r.worker, r.count + 1)), r.begun)
  }

  function AfterClaim(s: State, process: string): State
    requires process in s.inFlight
  {
    var r := s.inFlight[process];
    var idle := s.(inFlight := s.inFlight - {process});
    if !Hits(s.rows, r.row, ClaimOf(r)) then idle
    else idle.(
      rows := Update(s.rows, r.row, ClaimOf(r)),
      claims := s.claims + [EventOf(r)],
      exhaustedClaims := s.exhaustedClaims[r.row :=
        Count(s.exhaustedClaims, r.row) + if r.allowExhausted then 1 else 0])
  }

  function AfterCreate(s: State, outboxId: Uuid, row: Row): State {
    s.(rows := s.rows[outboxId := row], born := s.born[outboxId := row])
  }

  /** What a process reads of a row before it claims it. */
  function ReadOf(s: State, worker: string, id: Uuid, now: int, allowExhausted: bool): Read
    requires id in s.rows
  {
    Read(id, worker, s.rows[id].attemptCount, allowExhausted, now, Count(s.replays, id), |s.claims|)
  }

  function AfterBegin(s: State, process: string, read: Read): State {
    s.(inFlight := s.inFlight[process := read])
  }

  function AfterRead(s: State, id: Uuid): State {
    s.(snapshots := s.snapshots + {(id, CurrentMetadata(s.rows, id))})
  }

  function Next(l: Limits, s: State, step: Step): State
    requires Enabled(l, s, step)
  {
    match step
    case Create(record, outboxId, createdAt) =>
      AfterCreate(s, outboxId, MakeRow(record, outboxId, createdAt).value)
    case BeginClaim(process, worker, id, now, allowExhausted) =>
      AfterBegin(s, process, ReadOf(s, worker, id, now, allowExhausted))
    case FinishClaim(process) => AfterClaim(s, process)
    case ReadMetadata(id) => AfterRead(s, id)
    case Finish(id, write) => s.(rows := Update(s.rows, id, write))
    case OperatorReplay(id, at, who, task) =>
      s.(rows := Update(s.rows, id, Replay(at, who, task)), replays := s.replays[id := Count(s.replays, id) + 1])
  }

  /** The state after a sequence of steps; a step that is not enabled does nothing. */
  function Run(l: Limits, s: State, steps: seq<Step>): State
    decreases |steps|
  {
    if steps == [] then s
    else
      var before := Run(l, s, steps[..|steps| - 1]);
      var step := steps[|steps| - 1];
      if Enabled(l, before, step) then Next(l, before, step) else before
  }

  function Reached(l: Limits, steps: seq<Step>): State { Run(l, INITIAL, steps) }

  predicate ReplayFree(steps: seq<Step>) {
    forall i :: 0 <= i < |steps| ==> !steps[i].OperatorReplay?
  }

  /** No operator replays this row; others may be replayed. */
  predicate Unreplayed(steps: seq<Step>, id: Uuid) {
    forall i :: 0 <= i < |steps| && steps[i].OperatorReplay? ==> steps[i].id != id
  }

  // ---------- Building runs ----------

  lemma RunOneMore(l: Limits, steps: seq<Step>, step: Step)
    requires Enabled(l, Reached(l, steps), step)
    ensures Reached(l, steps + [step]) == Next(l, Reached(l, steps), step)
  {
    assert (steps + [step])[..|steps + [step]| - 1] == steps;
  }

  /** The run with one more step. */
  lemma Extend(l: Limits, steps: seq<Step>, step: Step) returns (more: seq<Step>)
    requires Enabled(l, Reached(l, steps), step)
    ensures more == steps + [step] && Reached(l, more) == Next(l, Reached(l, steps), step)
    ensures ReplayFree(steps) && !step.OperatorReplay? ==> ReplayFree(more)
  {
    RunOneMore(l, steps, step);
    more := steps + [step];
  }

  lemma RunSkips(l: Limits, steps: seq<Step>, step: Step)
    requires !Enabled(l, Reached(l, steps), step)
    ensures Reached(l, steps + [step]) == Reached(l, steps)
  {
    assert (steps + [step])[..|steps + [step]| - 1] == steps;
  }

  /** An idle process reads a row and claims it, with nothing in between. */
  lemma ReadAndClaim(
    l: Limits, steps: seq<Step>, process: string, worker: string, id: Uuid, now: int, allowExhausted: bool)
    returns (more: seq<Step>)
    requires id in Reached(l, steps).rows && worker != "" && process !in Reached(l, steps).inFlight
    requires MayClaim(l, Reached(l, steps).rows[id], now, allowExhausted)
    ensures
      var s := Reached(l, steps);
      var r := ReadOf(s, worker, id, now, allowExhausted);
      && Reached(l, more).rows == s.rows[id := After(s.rows[id], ClaimOf(r))]
      && Reached(l, more).claims == s.claims + [EventOf(r)]
      && Reached(l, more).inFlight == s.inFlight && Reached(l, more).replays == s.replays
    ensures more == steps + [BeginClaim(process, worker, id, now, allowExhausted), FinishClaim(process)]
  {
    var read := BeginClaim(process, worker, id, now, allowExhausted);
    RunOneMore(l, steps, read);
    RunOneMore(l, steps + [read], FinishClaim(process));
    more := steps + [read] + [FinishClaim(process)];
  }

  // ---------- What every update does to one row ----------

  /** The columns that no update but a replay touches, and those that none touches. */
  lemma WriteFrame(row: Row, w: Write)
    ensures After(row, w).outboxId == row.outboxId && After(row, w).ingressId == row.ingressId
    ensures After(row, w).tenantId == row.tenantId && After(row, w).channel == row.channel
    ensures !w.Replay? ==> After(row, w).createdAt == row.createdAt
    ensures !w.Replay? ==> row.attemptCount <= After(row, w).attemptCount
    ensures !w.Replay? && !w.Claim? ==> row.attemptCount == After(row, w).attemptCount
  {
  }

  // ---------- Well-formed rows ----------

  predicate HasClaim(row: Row) {
    row.claimId.Some? && row.workerId.Some? && row.claimedAt.Some? && row.attemptCount >= 1
  }

  /** What the columns of a row say about each other. */
  predicate WellFormed(row: Row) {
    && (row.status.Pending? ==> row.claimId.None? && row.workerId.None? && row.claimedAt.None?)
    && (!row.status.Pending? ==> HasClaim(row) && AtMost(row.nextAttemptAt, row.claimedAt.value))
    && (row.dispatchedAt.Some? <==> row.status.Dispatched?)
    && row.tenantId != "" && row.channel in ALLOWED_CHANNELS
  }

  lemma WriteKeepsWellFormed(row: Row, w: Write)
    requires WellFormed(row) && Guard(row, w)
    ensures WellFormed(After(row, w))
  {
  }

  lemma MadeRowWellFormed(record: IngressRecord, outboxId: Uuid, createdAt: Option<int>)
    requires MakeRow(record, outboxId, createdAt).Some?
    ensures WellFormed(MakeRow(record, outboxId, createdAt).value)
  {
    ChannelIsFirstAllowed(record, DispatchChannel(record).value);
  }

  /** Which update can follow which on the same row, and from when on. */
  predicate Follows(row: Row, first: Write, second: Write) {
    match first
    case Claim(claimId, _, claimedAt) =>
      (match second
       case MarkDispatched(c, _) => c == claimId
       case Reschedule(c, _, _, _) => c == claimId
       case DeadLetter(c, _, _, _) => c == claimId
       case RequeueStale(staleBefore, _, _, _) => claimedAt <= staleBefore
       case _ => false)
    case MarkDispatched(_, _) => false
    case DeadLetter(_, _, _, _) => second.Replay?
    case Reschedule(_, nextAttemptAt, _, _) => second.Replay? || (second.Claim? && nextAttemptAt <= second.claimedAt)
    case RequeueStale(_, _, _, _) => second.Replay? || (second.Claim? && AtMost(row.nextAttemptAt, second.claimedAt))
    case Replay(replayedAt, _, _) => second.Replay? || (second.Claim? && replayedAt <= second.claimedAt)
  }

  /**
   After an update, exactly the updates that may follow it hit the row: a claim is ended by its own
   id or once it is stale, a freed row is claimed when it is due, and nothing follows a dispatch.
   */
  lemma NextUpdates(row: Row, first: Write, second: Write)
    requires Guard(row, first)
    ensures Guard(After(row, first), second) <==> Follows(row, first, second)
  {
  }

  /** Every row is well formed, filed under its id, and the only row of its ingress. */
  ghost predicate RowsInv(s: State) {
    && (forall id :: id in s.rows ==> WellFormed(s.rows[id]) && s.rows[id].outboxId == id)
    && (forall id, id' :: id in s.rows && id' in s.rows && s.rows[id].ingressId == s.rows[id'].ingressId ==> id == id')
  }

  lemma UpdateKeepsRowsInv(s: State, id: Uuid, w: Write, t: State)
    requires RowsInv(s) && t.rows == Update(s.rows, id, w)
    ensures RowsInv(t)
  {
    if Hits(s.rows, id, w) {
      WriteKeepsWellFormed(s.rows[id], w);
      WriteFrame(s.rows[id], w);
    }
  }

  lemma StepKeepsRowsInv(l: Limits, s: State, step: Step)
    requires RowsInv(s) && Enabled(l, s, step)
    ensures RowsInv(Next(l, s, step))
  {
    var t := Next(l, s, step);
    match step {
      case Create(record, outboxId, createdAt) =>
        MadeRowWellFormed(record, outboxId, createdAt);
      case FinishClaim(process) =>
        UpdateKeepsRowsInv(s, s.inFlight[process].row, ClaimOf(s.inFlight[process]), t);
      case Finish(id, write) =>
        UpdateKeepsRowsInv(s, id, write, t);
      case OperatorReplay(id, at, who, task) =>
        UpdateKeepsRowsInv(s, id, Replay(at, who, task), t);
      case _ =>
    }
  }

  /** Every row of every reachable table is well formed and unique for its ingress. */
  lemma {:induction false} RowsAlwaysWellFormed(l: Limits, steps: seq<Step>)
    ensures RowsInv(Reached(l, steps))
  {
    if steps != [] {
      var front := steps[..|steps| - 1];
      RowsAlwaysWellFormed(l, front);
      if Enabled(l, Reached(l, front), steps[|steps| - 1]) {
        StepKeepsRowsInv(l, Reached(l, front), steps[|steps| - 1]);
      }
    }
  }
}
