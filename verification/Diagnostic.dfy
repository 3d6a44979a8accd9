/**
 The diagnostic cognition runtime: one ticket, a model that may be cut off, answer unparsably,
 drift, or fail, at most one corrective call of each kind, a token quota, and an acceptance that
 leaves a trail of saved records.
 */
module Diagnostic {
  import opened Wrappers
  import opened Semantic

  // ---------- The runtime's surroundings ----------

  /** `truncated` says that the provider stopped at the output-token ceiling. */
  datatype Completion = Completion(text: string, totalTokens: nat, truncated: bool)

  datatype Error =
    | ProviderError(message: string)
    | SemanticDrift
    | GovernanceRejection
    | PersistenceError(message: string)
    | OtherError(message: string)

  datatype Reply = Raises(error: Error) | Returns(completion: Completion)

  datatype Decision = Allow | Deny | Redact | Degrade | Escalate | RequireApproval

  /** `publishRaises`: publishing a crisis event for the decision fails. */
  datatype Verdict =
    | EvaluationRaises(alreadyRecorded: bool)
    | Envelope(isOk: bool, decision: Option<Decision>, publishRaises: bool)

  datatype UsageStatus = Accepted | Rejected | Failed

  /** The attempts to write, in order; `ok` says whether the write went through. */
  datatype Effect =
    | AuditSaved(audited: Completion, ok: bool)
    | Governed(judged: Completion, verdict: Verdict)
    | UsageSaved(usageId: string, status: UsageStatus, used: Option<Completion>, ok: bool)

  /**
   Everything the runtime does not control, for all possible behaviours: the provider's reply to
   its n-th call at a given ceiling of output tokens, the outcome of the n-th write, the verdict given
   after n writes, what a text parses to, and whether assembling the final result fails. The check of
   an output is a field as well: what holds of the runtime holds for every check, and so for the one
   of the governance terms.
   */
  datatype World = World(
    provider: (nat, int) -> Reply, writes: nat -> bool, verdicts: nat -> Verdict,
    parse: string -> Option<DiagnosticOutput>, check: Check, assemblyRaises: bool)

  /** Judges an output against the ticket, the context and the authorized terms. */
  type Check = (string, string, DiagnosticOutput, set<string>) -> SemanticResult

  /** Outputs are checked for their governance terms. */
  ghost predicate ChecksTerms(w: World, fold: Folding) {
    forall ticket, context, o, authorized ::
      w.check(ticket, context, o, authorized) == EvaluateOutput(fold, ticket, context, o, authorized)
  }

  datatype Config = Config(
    maxOutputTokens: int, maxOutputTokensEscalated: int, selfCorrection: bool,
    authorized: set<string>, hasQuota: bool, hasRedis: bool)

  datatype Snapshot = Snapshot(usageId: string, ticket: string, context: string, categories: set<string>)

  function ValidatedCategory(raw: string, categories: set<string>): string {
    if categories == {} then UNCLASSIFIED
    else if raw in categories then raw
    else UNCLASSIFIED
  }

  datatype ReasoningResult = ReasoningResult(summary: string, category: string, completion: Completion)

  // ---------- Tokens ----------

  function TokensOf(cs: seq<Completion>): seq<nat> {
    if cs == [] then [] else TokensOf(cs[..|cs| - 1]) + [cs[|cs| - 1].totalTokens]
  }

  lemma {:induction false} TokensInOrder(cs: seq<Completion>)
    ensures |TokensOf(cs)| == |cs|
    ensures forall i :: 0 <= i < |cs| ==> TokensOf(cs)[i] == cs[i].totalTokens
  {
    if cs != [] {
      TokensInOrder(cs[..|cs| - 1]);
    }
  }

  function Sum(ns: seq<nat>): nat {
    if ns == [] then 0 else Sum(ns[..|ns| - 1]) + ns[|ns| - 1]
  }

  /** The tokens of the charges whose write went through in the given minute. */
  function Recorded(charges: seq<nat>, minuteOf: nat -> int, ok: nat -> bool, minute: int): nat {
    if charges == [] then 0
    else
      var last := |charges| - 1;
      Recorded(charges[..last], minuteOf, ok, minute) +
        if ok(last) && minuteOf(last) == minute then charges[last] else 0
  }

  /** The windows of the quota, one counter a minute; a charge of no tokens makes none, a failed write changes none. */
  function Windows(charges: seq<nat>, minuteOf: nat -> int, ok: nat -> bool): map<int, nat> {
    if charges == [] then map[]
    else
      var last := |charges| - 1;
      var before := Windows(charges[..last], minuteOf, ok);
      if charges[last] <= 0 || !ok(last) then before
      else before[minuteOf(last) := charges[last] + if minuteOf(last) in before then before[minuteOf(last)] else 0]
  }

  /** A window holds the charges recorded in its minute; there is one for each minute in which tokens were recorded. */
  lemma {:induction false} WindowsHoldRecorded(charges: seq<nat>, minuteOf: nat -> int, ok: nat -> bool, minute: int)
    ensures minute in Windows(charges, minuteOf, ok) <==> Recorded(charges, minuteOf, ok, minute) > 0
    ensures minute in Windows(charges, minuteOf, ok) ==>
      Windows(charges, minuteOf, ok)[minute] == Recorded(charges, minuteOf, ok, minute)
  {
    if charges != [] {
      WindowsHoldRecorded(charges[..|charges| - 1], minuteOf, ok, minute);
    }
  }

  /** One more charge: its window grows by it and no other changes; a failed write, or no tokens, change none. */
  lemma OneMoreCharge(charges: seq<nat>, tokens: nat, minuteOf: nat -> int, ok: nat -> bool, minute: int)
    ensures
      var (before, after) := (Windows(charges, minuteOf, ok), Windows(charges + [tokens], minuteOf, ok));
      var n := |charges|;
      && (!ok(n) || tokens == 0 ==> after == before)
      && (minute != minuteOf(n) ==>
            (minute in after <==> minute in before) && (minute in after ==> after[minute] == before[minute]))
      && (ok(n) && tokens > 0 && minute == minuteOf(n) ==>
            minute in after && after[minute] == tokens + if minute in before then before[minute] else 0)
  {
    assert (charges + [tokens])[..|charges|] == charges;
  }

  /** When every write goes through in one minute, its window grows by all the charges. */
  lemma {:induction false} OneMinuteHoldsAll(charges: seq<nat>, minuteOf: nat -> int, ok: nat -> bool, minute: int)
    requires forall i: nat :: i < |charges| ==> ok(i) && minuteOf(i) == minute
    ensures Recorded(charges, minuteOf, ok, minute) == Sum(charges)
  {
    if charges != [] {
      OneMinuteHoldsAll(charges[..|charges| - 1], minuteOf, ok, minute);
    }
  }

  // ---------- Judging a completion ----------

  datatype Candidate = Candidate(completion: Completion, parsed: DiagnosticOutput, semantic: SemanticResult)

  /** The parsed and checked completion, or none when it does not parse. */
  function Evaluate(w: World, config: Config, snapshot: Snapshot, c: Completion): Option<Candidate> {
    match w.parse(c.text)
    case None => None
    case Some(o) => Some(Candidate(c, o, w.check(snapshot.ticket, snapshot.context, o, config.authorized)))
  }

  /** The completion parsed and keeps to the governance terms. */
  predicate Sound(w: World, config: Config, snapshot: Snapshot, c: Completion) {
    Evaluate(w, config, snapshot, c).Some? && Evaluate(w, config, snapshot, c).value.semantic.Valid()
  }

  /** Governance lets the output pass. */
  predicate Approves(config: Config, v: Verdict, allowExisting: bool) {
    match v
    case EvaluationRaises(alreadyRecorded) => allowExisting && alreadyRecorded
    case Envelope(isOk, decision, publishRaises) =>
      !(decision.Some? && config.hasRedis && publishRaises) && isOk && decision == Some(Allow)
  }

  /** The answer got from the n-th call on, and how many calls it takes. */
  function LlmAnswer(w: World, config: Config, n: nat): (Result<Completion, Error>, nat) {
    match w.provider(n, config.maxOutputTokens)
    case Raises(e) => (Err(e), 1)
    case Returns(c) =>
      if !c.truncated || config.maxOutputTokensEscalated <= config.maxOutputTokens then (Ok(c), 1)
      else
        match w.provider(n + 1, config.maxOutputTokensEscalated)
        case Raises(e) => (Err(e), 2)
        case Returns(d) => (Ok(d), 2)
  }

  // ---------- The search for a candidate ----------

  const INVALID_JSON := ProviderError("diagnostic model returned invalid JSON")

  /** The candidate that the corrective call made as the n-th call leads to. */
  function Correction(w: World, config: Config, snapshot: Snapshot, n: nat): Result<Candidate, Error> {
    match LlmAnswer(w, config, n).0
    case Err(e) => Err(e)
    case Ok(c) =>
      match Evaluate(w, config, snapshot, c)
      case None => Err(INVALID_JSON)
      case Some(candidate) => Ok(candidate)
  }

  /** What the search found, the completion it ended with, and the provider calls it made. */
  datatype Search = Search(found: Result<Candidate, Error>, active: Completion, calls: nat)

  /** A candidate that parsed is kept, or replaced once when it drifts. */
  function Settle(w: World, config: Config, snapshot: Snapshot, candidate: Candidate, n: nat): Search {
    if candidate.semantic.Valid() then Search(Ok(candidate), candidate.completion, 0)
    else if !config.selfCorrection then Search(Err(SemanticDrift), candidate.completion, 0)
    else
      var calls := LlmAnswer(w, config, n).1;
      match Correction(w, config, snapshot, n)
      case Err(e) => Search(Err(e), candidate.completion, calls)
      case Ok(corrected) =>
        Search(if corrected.semantic.Valid() then Ok(corrected) else Err(SemanticDrift), corrected.completion, calls)
  }

  /** The search from a completion, when n calls have been made. */
  function SearchFrom(w: World, config: Config, snapshot: Snapshot, completion: Completion, n: nat): Search {
    match Evaluate(w, config, snapshot, completion)
    case Some(candidate) => Settle(w, config, snapshot, candidate, n)
    case None =>
      if !config.selfCorrection then Search(Err(INVALID_JSON), completion, 0)
      else
        var calls := LlmAnswer(w, config, n).1;
        match Correction(w, config, snapshot, n)
        case Err(e) => Search(Err(e), completion, calls)
        case Ok(reparsed) =>
          var rest := Settle(w, config, snapshot, reparsed, n + calls);
          rest.(calls := calls + rest.calls)
  }

  /** The n-th call is answered with a sound completion. */
  predicate SoundAnswer(w: World, config: Config, snapshot: Snapshot, n: nat) {
    LlmAnswer(w, config, n).0.Ok? && Sound(w, config, snapshot, LlmAnswer(w, config, n).0.value)
  }

  /** The n-th call is answered with a completion that parses and drifts. */
  predicate DriftingAnswer(w: World, config: Config, snapshot: Snapshot, n: nat) {
    && LlmAnswer(w, config, n).0.Ok?
    && Evaluate(w, config, snapshot, LlmAnswer(w, config, n).0.value).Some?
    && !Sound(w, config, snapshot, LlmAnswer(w, config, n).0.value)
  }

  /**
   When a candidate is found: the completion is sound, or the first correction is, or the completion
   does not parse, the first correction parses but drifts, and the second one is sound.
   */
  lemma FoundExactly(w: World, config: Config, snapshot: Snapshot, completion: Completion, n: nat)
    ensures SearchFrom(w, config, snapshot, completion, n).found.Ok? <==>
      || Sound(w, config, snapshot, completion)
      || (config.selfCorrection && SoundAnswer(w, config, snapshot, n))
      || (config.selfCorrection && Evaluate(w, config, snapshot, completion).None?
          && DriftingAnswer(w, config, snapshot, n)
          && SoundAnswer(w, config, snapshot, n + LlmAnswer(w, config, n).1))
    ensures SearchFrom(w, config, snapshot, completion, n).found.Ok? ==>
      Sound(w, config, snapshot, SearchFrom(w, config, snapshot, completion, n).active)
  {
  }

  /**
   How many calls the search makes, and which completion it ends with: none for a completion that is
   sound or that may not be corrected; one correction unless the completion did not parse and the first
   correction drifts; then two. It ends with the last completion that parsed, if one did.
   */
  lemma CallsExactly(w: World, config: Config, snapshot: Snapshot, completion: Completion, n: nat)
    ensures
      var s := SearchFrom(w, config, snapshot, completion, n);
      var (first, calls) := LlmAnswer(w, config, n);
      var (second, more) := LlmAnswer(w, config, n + calls);
      if Sound(w, config, snapshot, completion) || !config.selfCorrection then
        s.calls == 0 && s.active == completion
      else if Evaluate(w, config, snapshot, completion).None? && DriftingAnswer(w, config, snapshot, n) then
        s.calls == calls + more && s.active == if Parses(w, second) then second.value else first.value
      else
        s.calls == calls && s.active == if Parses(w, first) then first.value else completion
  {
  }

  /** The answer is a completion that parses. */
  predicate Parses(w: World, answer: Result<Completion, Error>) {
    answer.Ok? && w.parse(answer.value.text).Some?
  }

  /** What is wrong with an answer: the provider failed, or it does not parse, or it drifts. */
  predicate Faults(w: World, config: Config, snapshot: Snapshot, answer: Result<Completion, Error>, error: Error) {
    match answer
    case Err(e) => error == e
    case Ok(c) =>
      match Evaluate(w, config, snapshot, c)
      case None => error == INVALID_JSON
      case Some(candidate) => !candidate.semantic.Valid() && error == SemanticDrift
  }

  /** The search made its last call as the k-th one. */
  predicate LastCall(w: World, config: Config, snapshot: Snapshot, completion: Completion, n: nat, k: nat) {
    n <= k && k + LlmAnswer(w, config, k).1 == n + SearchFrom(w, config, snapshot, completion, n).calls
  }

  /**
   Why no candidate is found: the error says what is wrong with the last answer that was judged,
   which is the completion itself when no call was made.
   */
  lemma ErrorTellsFault(w: World, config: Config, snapshot: Snapshot, completion: Completion, n: nat)
    requires SearchFrom(w, config, snapshot, completion, n).found.Err?
    ensures
      var s := SearchFrom(w, config, snapshot, completion, n);
      if config.selfCorrection
      then exists k :: LastCall(w, config, snapshot, completion, n, k)
                       && Faults(w, config, snapshot, LlmAnswer(w, config, k).0, s.found.error)
      else s.calls == 0 && Faults(w, config, snapshot, Ok(completion), s.found.error)
  {
    var s := SearchFrom(w, config, snapshot, completion, n);
    if config.selfCorrection {
      var first := LlmAnswer(w, config, n).1;
      if s.calls == first {
        assert LastCall(w, config, snapshot, completion, n, n);
      } else {
        assert LastCall(w, config, snapshot, completion, n, n + first);
      }
    }
  }

  // ---------- Acceptance ----------

  predicate IsFailureSave(e: Effect) { e.UsageSaved? && !e.status.Accepted? }

  predicate NoFailureSave(es: seq<Effect>) {
    forall i :: 0 <= i < |es| ==> !IsFailureSave(es[i])
  }

  /** There is one failure save, under the given id, and it is the last effect. */
  predicate OneFailureSave(es: seq<Effect>, usageId: string) {
    && es != [] && IsFailureSave(es[|es| - 1]) && es[|es| - 1].usageId == usageId
    && forall i :: 0 <= i < |es| - 1 ==> !IsFailureSave(es[i])
  }

  /** The trail of an acceptance: audit, approval, accepted usage, all for one sound completion. */
  predicate AcceptanceTrail(
    w: World, config: Config, snapshot: Snapshot, allowExisting: bool, es: seq<Effect>, c: Completion)
  {
    && Sound(w, config, snapshot, c)
    && |es| == 3
    && es[0] == AuditSaved(c, true)
    && es[1].Governed? && es[1].judged == c && Approves(config, es[1].verdict, allowExisting)
    && es[2] == UsageSaved(snapshot.usageId, Accepted, Some(c), true)
  }

  const AUDIT_FAILED := PersistenceError("cognition audit persistence failed")
  const USAGE_FAILED := PersistenceError("LLM usage persistence failed")

  /** The error a refusal by governance is raised as. */
  function Refusal(config: Config, v: Verdict): Error {
    match v
    case EvaluationRaises(_) => PersistenceError("diagnostic governance persistence failed")
    case Envelope(_, decision, publishRaises) =>
      if decision.Some? && config.hasRedis && publishRaises then OtherError("crisis event") else GovernanceRejection
  }

  /** What stops the acceptance of a candidate after m writes, if anything does. */
  function Obstacle(w: World, config: Config, allowExisting: bool, m: nat): Option<Error> {
    if !w.writes(m) then Some(AUDIT_FAILED)
    else if !Approves(config, w.verdicts(m + 1), allowExisting) then Some(Refusal(config, w.verdicts(m + 1)))
    else if !w.writes(m + 2) then Some(USAGE_FAILED)
    else if w.assemblyRaises then Some(OtherError("result"))
    else None
  }

  /** The effects of trying to accept a completion after m writes. */
  function Attempt(
    w: World, config: Config, snapshot: Snapshot, c: Completion, allowExisting: bool, m: nat): seq<Effect>
  {
    [AuditSaved(c, w.writes(m))] +
    if !w.writes(m) then []
    else
      [Governed(c, w.verdicts(m + 1))] +
      if !Approves(config, w.verdicts(m + 1), allowExisting) then []
      else [UsageSaved(snapshot.usageId, Accepted, Some(c), w.writes(m + 2))]
  }

  /** How a failure is recorded: rejected output is REJECTED, everything unexpected is FAILED. */
  function StatusFor(e: Error): UsageStatus {
    match e
    case SemanticDrift => Rejected
    case GovernanceRejection => Rejected
    case ProviderError(_) => Rejected
    case PersistenceError(_) => Failed
    case OtherError(_) => Failed
  }

  /** What the caller sees of a failure. */
  function Surfaced(e: Error): Error {
    match e
    case OtherError(name) => ProviderError("diagnostic cognition failed: " + name)
    case _ => e
  }

  /** The same for a failure of the first call: only a provider error is expected there. */
  function FirstStatus(e: Error): UsageStatus {
    if e.ProviderError? then Rejected else Failed
  }

  function FirstSurfaced(e: Error): Error {
    match e
    case ProviderError(_) => e
    case SemanticDrift => ProviderError("diagnostic cognition failed: CognitionSemanticValidationError")
    case GovernanceRejection => ProviderError("diagnostic cognition failed: CognitionGovernanceRejectionError")
    case PersistenceError(_) => ProviderError("diagnostic cognition failed: CognitionPersistenceError")
    case OtherError(name) => ProviderError("diagnostic cognition failed: " + name)
  }

  /** A result or an error, the effects on the way there, and the provider calls made. */
  datatype Outcome = Outcome(result: Result<ReasoningResult, Error>, trail: seq<Effect>, calls: nat)

  /** A failure: one save after the attempt, whose own failure hides the cause. */
  function Failure(
    w: World, snapshot: Snapshot, attempt: seq<Effect>, status: UsageStatus, surfaced: Error,
    active: Option<Completion>, m: nat, calls: nat): Outcome
  {
    var ok := w.writes(m + |attempt|);
    Outcome(
      Err(if ok then surfaced else USAGE_FAILED), attempt + [UsageSaved(snapshot.usageId, status, active, ok)], calls)
  }

  function ResultOf(snapshot: Snapshot, candidate: Candidate): ReasoningResult {
    ReasoningResult(
      candidate.parsed.summary, ValidatedCategory(candidate.parsed.category, snapshot.categories), candidate.completion)
  }

  /** The acceptance of a completion, after n calls and m writes. */
  function AcceptanceOutcome(
    w: World, config: Config, snapshot: Snapshot, completion: Completion, allowExisting: bool, n: nat, m: nat): Outcome
  {
    var s := SearchFrom(w, config, snapshot, completion, n);
    match s.found
    case Err(e) => Failure(w, snapshot, [], StatusFor(e), Surfaced(e), Some(s.active), m, s.calls)
    case Ok(candidate) =>
      var attempt := Attempt(w, config, snapshot, candidate.completion, allowExisting, m);
      match Obstacle(w, config, allowExisting, m)
      case Some(e) => Failure(w, snapshot, attempt, StatusFor(e), Surfaced(e), Some(s.active), m, s.calls)
      case None => Outcome(Ok(ResultOf(snapshot, candidate)), attempt, s.calls)
  }

  /** One ticket, from the first call on. */
  function TicketOutcome(w: World, config: Config, snapshot: Snapshot, n: nat, m: nat): Outcome {
    Answered(w, config, snapshot, LlmAnswer(w, config, n).0, n, LlmAnswer(w, config, n).1, m)
  }

  /** What becomes of the ticket when the first answer took the given calls. */
  function Answered(
    w: World, config: Config, snapshot: Snapshot, answer: Result<Completion, Error>, n: nat, calls: nat, m: nat)
    : Outcome
  {
    match answer
    case Err(e) => Failure(w, snapshot, [], FirstStatus(e), FirstSurfaced(e), None, m, calls)
    case Ok(c) => After(calls, AcceptanceOutcome(w, config, snapshot, c, false, n + calls, m))
  }

  /** An outcome, with the calls before it counted in. */
  function After(calls: nat, out: Outcome): Outcome {
    Outcome(out.result, out.trail, calls + out.calls)
  }

  /** The outcome of a ticket is what becomes of it after the first answer, with the calls for that counted in. */
  lemma TicketByAnswer(w: World, config: Config, snapshot: Snapshot, n: nat, m: nat, out: Outcome)
    requires
      var (answer, calls) := LlmAnswer(w, config, n);
      out == match answer {
               case Err(e) => Failure(w, snapshot, [], FirstStatus(e), FirstSurfaced(e), None, m, 0)
               case Ok(c) => AcceptanceOutcome(w, config, snapshot, c, false, n + calls, m)
             }
    ensures TicketOutcome(w, config, snapshot, n, m) == After(LlmAnswer(w, config, n).1, out)
  {
  }

  /** What is promised of every outcome: a result is accepted in full, a failure is saved once. */
  predicate IsClosed(w: World, config: Config, snapshot: Snapshot, allowExisting: bool, out: Outcome) {
    match out.result
    case Ok(r) => IsAcceptance(w, config, snapshot, allowExisting, r, out.trail)
    case Err(_) => OneFailureSave(out.trail, snapshot.usageId)
  }

  /** A completion is accepted exactly when a candidate is found and nothing stands in its way. */
  lemma AcceptedExactly(
    w: World, config: Config, snapshot: Snapshot, completion: Completion, allowExisting: bool, n: nat, m: nat)
    ensures AcceptanceOutcome(w, config, snapshot, completion, allowExisting, n, m).result.Ok? <==>
      && SearchFrom(w, config, snapshot, completion, n).found.Ok?
      && w.writes(m) && Approves(config, w.verdicts(m + 1), allowExisting) && w.writes(m + 2) && !w.assemblyRaises
  {
  }

  /**
   The result of one and the same completion that parsed, kept to the governance terms, was audited,
   was approved and had its ACCEPTED usage saved, in that order.
   */
  predicate IsAcceptance(
    w: World, config: Config, snapshot: Snapshot, allowExisting: bool, r: ReasoningResult, trail: seq<Effect>)
  {
    && AcceptanceTrail(w, config, snapshot, allowExisting, trail, r.completion)
    && w.parse(r.completion.text).Some?
    && r.summary == w.parse(r.completion.text).value.summary
    && r.category == ValidatedCategory(w.parse(r.completion.text).value.category, snapshot.categories)
    && (r.category == UNCLASSIFIED || r.category in snapshot.categories)
    && NoFailureSave(trail)
  }

  /** Acceptance fails closed: every result is an acceptance, of the completion the search ended with. */
  lemma AcceptanceFailsClosed(
    w: World, config: Config, snapshot: Snapshot, completion: Completion, allowExisting: bool, n: nat, m: nat)
    requires AcceptanceOutcome(w, config, snapshot, completion, allowExisting, n, m).result.Ok?
    ensures
      var out := AcceptanceOutcome(w, config, snapshot, completion, allowExisting, n, m);
      && IsAcceptance(w, config, snapshot, allowExisting, out.result.value, out.trail)
      && out.result.value.completion == SearchFrom(w, config, snapshot, completion, n).active
  {
    var out := AcceptanceOutcome(w, config, snapshot, completion, allowExisting, n, m);
    FoundExactly(w, config, snapshot, completion, n);
    AttemptSavesNoFailure(w, config, snapshot, out.result.value.completion, allowExisting, m);
    CategoryIsKnown(w.parse(out.result.value.completion.text).value.category, snapshot.categories);
  }

  lemma AttemptSavesNoFailure(w: World, config: Config, snapshot: Snapshot, c: Completion, allowExisting: bool, m: nat)
    ensures NoFailureSave(Attempt(w, config, snapshot, c, allowExisting, m))
  {
  }

  lemma FailureSavesOnce(
    w: World, snapshot: Snapshot, attempt: seq<Effect>, status: UsageStatus, surfaced: Error,
    active: Option<Completion>, m: nat, calls: nat)
    requires NoFailureSave(attempt) && !status.Accepted?
    ensures OneFailureSave(Failure(w, snapshot, attempt, status, surfaced, active, m, calls).trail, snapshot.usageId)
  {
  }

  /** The cause of a failed acceptance: why no candidate was found, or what stood in its way. */
  function Cause(
    w: World, config: Config, snapshot: Snapshot, completion: Completion, allowExisting: bool, n: nat, m: nat)
    : Option<Error>
  {
    match SearchFrom(w, config, snapshot, completion, n).found
    case Err(e) => Some(e)
    case Ok(_) => Obstacle(w, config, allowExisting, m)
  }

  /**
   What becomes of an acceptance, by what stops it: `tried` is how the attempt ended, and `saved` and
   `r` are what recording a failure made of it.
   */
  lemma OutcomeByCause(
    w: World, config: Config, snapshot: Snapshot, completion: Completion, allowExisting: bool, n: nat, m: nat,
    tried: Result<ReasoningResult, Error>, saved: seq<Effect>, r: Result<ReasoningResult, Error>)
    requires
      var s := SearchFrom(w, config, snapshot, completion, n);
      && (match Cause(w, config, snapshot, completion, allowExisting, n, m)
          case Some(e) => tried == Err(e)
          case None => s.found.Ok? && tried == Ok(ResultOf(snapshot, s.found.value)))
      && RecordedAs(w, snapshot, tried, s.active, m + |Tried(w, config, snapshot, s, allowExisting, m)|, saved, r)
    ensures
      var s := SearchFrom(w, config, snapshot, completion, n);
      Outcome(r, Tried(w, config, snapshot, s, allowExisting, m) + saved, s.calls)
        == AcceptanceOutcome(w, config, snapshot, completion, allowExisting, n, m)
  {
  }

  /** A result stays as it is; an error is saved, and surfaces unless the save fails. */
  predicate RecordedAs(
    w: World, snapshot: Snapshot, tried: Result<ReasoningResult, Error>, active: Completion, m: nat,
    saved: seq<Effect>, r: Result<ReasoningResult, Error>)
  {
    if tried.Ok? then saved == [] && r == tried
    else
      && saved == [UsageSaved(snapshot.usageId, StatusFor(tried.error), Some(active), w.writes(m))]
      && r == Err(if w.writes(m) then Surfaced(tried.error) else USAGE_FAILED)
  }

  /** The effects of trying to accept what a search found. */
  function Tried(
    w: World, config: Config, snapshot: Snapshot, s: Search, allowExisting: bool, m: nat): seq<Effect>
  {
    if s.found.Err? then [] else Attempt(w, config, snapshot, s.found.value.completion, allowExisting, m)
  }

  /**
   Every exit without a result attempts exactly one failure save, as the last effect and under the
   usage id: REJECTED for an output that was refused, FAILED for everything unexpected. The caller
   sees the cause, or the failure of that save.
   */
  lemma EveryFailureIsSavedOnce(
    w: World, config: Config, snapshot: Snapshot, completion: Completion, allowExisting: bool, n: nat, m: nat)
    requires AcceptanceOutcome(w, config, snapshot, completion, allowExisting, n, m).result.Err?
    ensures
      var out := AcceptanceOutcome(w, config, snapshot, completion, allowExisting, n, m);
      var cause := Cause(w, config, snapshot, completion, allowExisting, n, m);
      && cause.Some? && out.trail != []
      && OneFailureSave(out.trail, snapshot.usageId)
      && var last := out.trail[|out.trail| - 1];
         && last.UsageSaved? && last.used == Some(SearchFrom(w, config, snapshot, completion, n).active)
         && last.status == (if cause.value.PersistenceError? || cause.value.OtherError? then Failed else Rejected)
         && last.ok == w.writes(m + |out.trail| - 1)
         && out.result.error ==
              if !last.ok then PersistenceError("LLM usage persistence failed")
              else if cause.value.OtherError? then
                ProviderError("diagnostic cognition failed: " + cause.value.message)
              else cause.value
  {
    var s := SearchFrom(w, config, snapshot, completion, n);
    var cause := Cause(w, config, snapshot, completion, allowExisting, n, m).value;
    var attempt := Tried(w, config, snapshot, s, allowExisting, m);
    if s.found.Ok? {
      AttemptSavesNoFailure(w, config, snapshot, s.found.value.completion, allowExisting, m);
    }
    FailureSavesOnce(w, snapshot, attempt, StatusFor(cause), Surfaced(cause), Some(s.active), m, s.calls);
  }

  lemma AcceptanceIsClosed(
    w: World, config: Config, snapshot: Snapshot, c: Completion, allowExisting: bool, n: nat, m: nat)
    ensures IsClosed(w, config, snapshot, allowExisting, AcceptanceOutcome(w, config, snapshot, c, allowExisting, n, m))
  {
    if AcceptanceOutcome(w, config, snapshot, c, allowExisting, n, m).result.Ok? {
      AcceptanceFailsClosed(w, config, snapshot, c, allowExisting, n, m);
    } else {
      EveryFailureIsSavedOnce(w, config, snapshot, c, allowExisting, n, m);
    }
  }

  lemma LaterIsClosed(w: World, config: Config, snapshot: Snapshot, out: Outcome, calls: nat)
    requires IsClosed(w, config, snapshot, false, out)
    ensures IsClosed(w, config, snapshot, false, After(calls, out))
  {
  }

  lemma AnsweredIsClosed(
    w: World, config: Config, snapshot: Snapshot, answer: Result<Completion, Error>, n: nat, calls: nat, m: nat)
    ensures IsClosed(w, config, snapshot, false, Answered(w, config, snapshot, answer, n, calls, m))
  {
    match answer {
      case Err(e) =>
        FailureSavesOnce(w, snapshot, [], FirstStatus(e), FirstSurfaced(e), None, m, calls);
      case Ok(c) =>
        AcceptanceIsClosed(w, config, snapshot, c, false, n + calls, m);
        LaterIsClosed(w, config, snapshot, AcceptanceOutcome(w, config, snapshot, c, false, n + calls, m), calls);
    }
  }

  /**
   When the first call fails, one failure is saved, without a completion: REJECTED when the provider
   failed, FAILED for anything unexpected. The caller sees a provider error, or the failure of the save.
   */
  lemma FirstFailureIsSaved(w: World, config: Config, snapshot: Snapshot, n: nat, m: nat)
    requires LlmAnswer(w, config, n).0.Err?
    ensures
      var (cause, out) := (LlmAnswer(w, config, n).0.error, TicketOutcome(w, config, snapshot, n, m));
      var status := if cause.ProviderError? then Rejected else Failed;
      && out.trail == [UsageSaved(snapshot.usageId, status, None, w.writes(m))] && out.result.Err?
      && (!w.writes(m) ==> out.result.error == PersistenceError("LLM usage persistence failed"))
      && (w.writes(m) && cause.ProviderError? ==> out.result.error == cause)
      && (w.writes(m) && !cause.ProviderError? ==> out.result.error.ProviderError?)
  {
  }

  /** The same over a whole ticket. */
  lemma TicketFailsClosed(w: World, config: Config, snapshot: Snapshot, n: nat, m: nat)
    ensures IsClosed(w, config, snapshot, false, TicketOutcome(w, config, snapshot, n, m))
  {
    AnsweredIsClosed(w, config, snapshot, LlmAnswer(w, config, n).0, n, LlmAnswer(w, config, n).1, m);
  }

  /** The category of a result is one of the tenant's or `unclassified`. */
  lemma CategoryIsKnown(raw: string, categories: set<string>)
    ensures ValidatedCategory(raw, categories) == UNCLASSIFIED || ValidatedCategory(raw, categories) in categories
    ensures ValidatedCategory(raw, categories) == if raw in categories then raw else "unclassified"
  {
  }

  // ---------- The runtime ----------

  class DiagnosticRuntime {
    const world: World
    const config: Config
    var calls: nat
    var received: seq<Completion>
    var charges: seq<nat>
    var effects: seq<Effect>

    /** The quota has been charged for exactly the completions received, in order. */
    predicate Balanced()
      reads this
    {
      charges == if config.hasQuota then TokensOf(received) else []
    }

    constructor (world: World, config: Config)
      ensures this.world == world && this.config == config
      ensures calls == 0 && received == [] && effects == [] && Balanced()
    {
      this.world := world;
      this.config := config;
      calls, received, charges, effects := 0, [], [], [];
    }

    /** One call of the provider. */
    method CompleteAtBudget(maxOutputTokens: int) returns (r: Result<Completion, Error>)
      modifies this`calls, this`received
      ensures calls == old(calls) + 1
      ensures match world.provider(old(calls), maxOutputTokens) {
                case Raises(e) => r == Err(e) && received == old(received)
                case Returns(c) => r == Ok(c) && received == old(received) + [c]
              }
    {
      var reply := world.provider(calls, maxOutputTokens);
      calls := calls + 1;
      match reply {
        case Raises(e) =>
          r := Err(e);
        case Returns(c) =>
          received := received + [c];
          r := Ok(c);
      }
    }

    method RecordQuotaTokenUsage(tokens: nat)
      modifies this`charges
      ensures charges == if config.hasQuota then old(charges) + [tokens] else old(charges)
    {
      if config.hasQuota {
        charges := charges + [tokens];
      }
    }

    /**
     One answer, with one larger-budget retry when it was cut off and the larger budget is larger.
     All completions received are charged, except the one that is returned.
     */
    method CompleteLlm() returns (r: Result<Completion, Error>)
      requires Balanced()
      modifies this`calls, this`received, this`charges
      ensures old(received) <= received && |received| <= |old(received)| + 2
      ensures r.Err? ==> Balanced()
      ensures r.Ok? ==>
        && |received| > |old(received)| && received[|received| - 1] == r.value
        && charges == if config.hasQuota then TokensOf(received[..|received| - 1]) else []
      ensures match world.provider(old(calls), config.maxOutputTokens) {
                case Raises(e) => r == Err(e) && calls == old(calls) + 1 && received == old(received)
                case Returns(c) =>
                  (!c.truncated || config.maxOutputTokensEscalated <= config.maxOutputTokens ==>
                     r == Ok(c) && calls == old(calls) + 1 && received == old(received) + [c]) &&
                  (c.truncated && config.maxOutputTokensEscalated > config.maxOutputTokens ==>
                     calls == old(calls) + 2 &&
                     match world.provider(old(calls) + 1, config.maxOutputTokensEscalated) {
                       case Raises(e) => r == Err(e) && received == old(received) + [c]
                       case Returns(d) => r == Ok(d) && received == old(received) + [c, d]
                     })
              }
      ensures r == LlmAnswer(world, config, old(calls)).0
      ensures calls == old(calls) + LlmAnswer(world, config, old(calls)).1
    {
      var first := CompleteAtBudget(config.maxOutputTokens);
      if first.Err? {
        return first;
      }
      assert received[..|received| - 1] == old(received);
      if !first.value.truncated || config.maxOutputTokensEscalated <= config.maxOutputTokens {
        return first;
      }
      RecordQuotaTokenUsage(first.value.totalTokens);
      ghost var soFar := received;
      r := CompleteAtBudget(config.maxOutputTokensEscalated);
      if r.Ok? {
        assert received[..|received| - 1] == soFar;
      }
    }

    /** One answer, charged in full: the first call for a ticket and each corrective call. */
    method CompleteAndCharge() returns (r: Result<Completion, Error>)
      requires Balanced()
      modifies this`calls, this`received, this`charges
      ensures Balanced()
      ensures old(received) <= received && |received| <= |old(received)| + 2
      ensures r.Ok? ==> r.value in received[|old(received)|..]
      ensures r == LlmAnswer(world, config, old(calls)).0
      ensures calls == old(calls) + LlmAnswer(world, config, old(calls)).1
    {
      r := CompleteLlm();
      if r.Ok? {
        RecordQuotaTokenUsage(r.value.totalTokens);
        assert received[|old(received)|..][|received| - 1 - |old(received)|] == r.value;
      }
    }

    method SaveCognitionAudit(c: Completion) returns (r: Result<(), Error>)
      modifies this`effects
      ensures effects == old(effects) + [AuditSaved(c, world.writes(|old(effects)|))]
      ensures r == if world.writes(|old(effects)|) then Ok(()) else Err(AUDIT_FAILED)
    {
      var ok := world.writes(|effects|);
      effects := effects + [AuditSaved(c, ok)];
      r := if ok then Ok(()) else Err(AUDIT_FAILED);
    }

    method SaveUsage(usageId: string, status: UsageStatus, c: Option<Completion>) returns (r: Result<(), Error>)
      modifies this`effects
      ensures effects == old(effects) + [UsageSaved(usageId, status, c, world.writes(|old(effects)|))]
      ensures r == if world.writes(|old(effects)|) then Ok(()) else Err(USAGE_FAILED)
    {
      var ok := world.writes(|effects|);
      effects := effects + [UsageSaved(usageId, status, c, ok)];
      r := if ok then Ok(()) else Err(USAGE_FAILED);
    }

    /** Asks governance; anything but an ok envelope with an ALLOW decision is an error. */
    method GovernOutput(c: Completion, allowExisting: bool) returns (r: Result<(), Error>)
      modifies this`effects
      ensures effects == old(effects) + [Governed(c, world.verdicts(|old(effects)|))]
      ensures r.Ok? <==> Approves(config, world.verdicts(|old(effects)|), allowExisting)
      ensures r.Err? ==> r.error == Refusal(config, world.verdicts(|old(effects)|))
      ensures match world.verdicts(|old(effects)|) {
                case EvaluationRaises(recorded) =>
                  r == if allowExisting && recorded then Ok(())
                       else Err(PersistenceError("diagnostic governance persistence failed"))
                case Envelope(isOk, decision, publishRaises) =>
                  r == if decision.Some? && config.hasRedis && publishRaises then Err(OtherError("crisis event"))
                       else if isOk && decision == Some(Allow) then Ok(())
                       else Err(GovernanceRejection)
              }
    {
      var verdict := world.verdicts(|effects|);
      effects := effects + [Governed(c, verdict)];
      match verdict {
        case EvaluationRaises(alreadyRecorded) =>
          if allowExisting && alreadyRecorded {
            return Ok(());
          }
          return Err(PersistenceError("diagnostic governance persistence failed"));
        case Envelope(isOk, decision, publishRaises) =>
          if decision.Some? && config.hasRedis && publishRaises {
            return Err(OtherError("crisis event"));
          }
          if !isOk || decision.None? || decision.value != Allow {
            return Err(GovernanceRejection);
          }
          return Ok(());
      }
    }

    /** One corrective call, judged. */
    method AttemptSelfCorrection(snapshot: Snapshot) returns (r: Result<Candidate, Error>)
      requires Balanced()
      modifies this`calls, this`received, this`charges
      ensures Balanced()
      ensures old(received) <= received && |received| <= |old(received)| + 2
      ensures r == Correction(world, config, snapshot, old(calls))
      ensures r.Ok? ==> r.value.completion in received[|old(received)|..]
      ensures calls == old(calls) + LlmAnswer(world, config, old(calls)).1
    {
      var corrected := CompleteAndCharge();
      if corrected.Err? {
        return Err(corrected.error);
      }
      var candidate := Evaluate(world, config, snapshot, corrected.value);
      if candidate.None? {
        return Err(INVALID_JSON);
      }
      r := Ok(candidate.value);
    }

    /**
     From a completion to a candidate that parsed and does not drift, with at most one retry for a
     parse failure and one for drift. `active` is the completion a failure will be recorded with.
     */
    method FindCandidate(snapshot: Snapshot, completion: Completion)
      returns (r: Result<Candidate, Error>, active: Completion)
      requires Balanced()
      modifies this`calls, this`received, this`charges
      ensures Balanced()
      ensures old(received) <= received && |received| <= |old(received)| + 4
      ensures active == completion || active in received[|old(received)|..]
      ensures calls >= old(calls)
      ensures Search(r, active, calls - old(calls)) == SearchFrom(world, config, snapshot, completion, old(calls))
    {
      active := completion;
      var evaluated := Evaluate(world, config, snapshot, active);
      var candidate: Candidate;
      if evaluated.Some? {
        candidate := evaluated.value;
      } else {
        if !config.selfCorrection {
          return Err(INVALID_JSON), active;
        }
        var reparsed := AttemptSelfCorrection(snapshot);
        if reparsed.Err? {
          return Err(reparsed.error), active;
        }
        candidate := reparsed.value;
        active := candidate.completion;
      }
      if !candidate.semantic.Valid() {
        if config.selfCorrection {
          ghost var before := received;
          var corrected := AttemptSelfCorrection(snapshot);
          NewStaysNew(old(received), before, received);
          if corrected.Err? {
            return Err(corrected.error), active;
          }
          candidate := corrected.value;
          active := candidate.completion;
        }
        if !candidate.semantic.Valid() {
          return Err(SemanticDrift), active;
        }
      }
      r := Ok(candidate);
    }

    /** Audit, governance, accepted usage, result: for one candidate. */
    method AcceptCandidate(snapshot: Snapshot, candidate: Candidate, allowExisting: bool)
      returns (r: Result<ReasoningResult, Error>)
      modifies this`effects
      ensures effects ==
        old(effects) + Attempt(world, config, snapshot, candidate.completion, allowExisting, |old(effects)|)
      ensures r == match Obstacle(world, config, allowExisting, |old(effects)|) {
                     case Some(e) => Err(e)
                     case None => Ok(ResultOf(snapshot, candidate))
                   }
      ensures
        var c := candidate.completion;
        var m := |old(effects)|;
        var verdict := world.verdicts(m + 1);
        var approved := Approves(config, verdict, allowExisting);
        && (!world.writes(m) ==>
              effects == old(effects) + [AuditSaved(c, false)] &&
              r == Err(PersistenceError("cognition audit persistence failed")))
        && (world.writes(m) && !approved ==>
              effects == old(effects) + [AuditSaved(c, true), Governed(c, verdict)] && r.Err?)
        && (world.writes(m) && approved ==>
              effects == old(effects) + [AuditSaved(c, true), Governed(c, verdict),
                                         UsageSaved(snapshot.usageId, Accepted, Some(c), world.writes(m + 2))])
        && (world.writes(m) && approved && !world.writes(m + 2) ==>
              r == Err(PersistenceError("LLM usage persistence failed")))
        && (r.Ok? <==> world.writes(m) && approved && world.writes(m + 2) && !world.assemblyRaises)
        && (r.Ok? ==> r.value.summary == candidate.parsed.summary && r.value.completion == c)
        && (r.Ok? ==> r.value.category == if candidate.parsed.category in snapshot.categories
                                          then candidate.parsed.category else "unclassified")
    {
      var c := candidate.completion;
      var category := ValidatedCategory(candidate.parsed.category, snapshot.categories);
      var audit := SaveCognitionAudit(c);
      if audit.Err? {
        return Err(audit.error);
      }
      var governed := GovernOutput(c, allowExisting);
      if governed.Err? {
        return Err(governed.error);
      }
      var saved := SaveUsage(snapshot.usageId, Accepted, Some(c));
      if saved.Err? {
        return Err(saved.error);
      }
      if world.assemblyRaises {
        return Err(OtherError("result"));
      }
      r := Ok(ReasoningResult(candidate.parsed.summary, category, c));
    }

    /** The body of the acceptance: find a candidate, then accept it. */
    method TryAccept(snapshot: Snapshot, completion: Completion, allowExisting: bool)
      returns (r: Result<ReasoningResult, Error>, active: Completion)
      requires Balanced()
      modifies this
      ensures Balanced()
      ensures old(received) <= received && |received| <= |old(received)| + 4
      ensures active == completion || active in received[|old(received)|..]
      ensures
        var s := SearchFrom(world, config, snapshot, completion, old(calls));
        && active == s.active && calls == old(calls) + s.calls
        && effects == old(effects) + Tried(world, config, snapshot, s, allowExisting, |old(effects)|)
        && match Cause(world, config, snapshot, completion, allowExisting, old(calls), |old(effects)|) {
             case Some(e) => r == Err(e)
             case None => s.found.Ok? && r == Ok(ResultOf(snapshot, s.found.value))
           }
    {
      var found: Result<Candidate, Error>;
      found, active := FindCandidate(snapshot, completion);
      if found.Err? {
        return Err(found.error), active;
      }
      r := AcceptCandidate(snapshot, found.value, allowExisting);
    }

    /** Saves the failure record and says what the caller sees. */
    method PersistReasoningFailure(snapshot: Snapshot, status: UsageStatus, surfaced: Error, active: Option<Completion>)
      returns (error: Error)
      modifies this`effects
      ensures
        var ok := world.writes(|old(effects)|);
        && effects == old(effects) + [UsageSaved(snapshot.usageId, status, active, ok)]
        && error == if ok then surfaced else USAGE_FAILED
    {
      var saved := SaveUsage(snapshot.usageId, status, active);
      error := if saved.Ok? then surfaced else saved.error;
    }

    /** Records an error, and says what the caller sees. */
    method RecordIfFailed(snapshot: Snapshot, tried: Result<ReasoningResult, Error>, active: Completion)
      returns (r: Result<ReasoningResult, Error>, ghost saved: seq<Effect>)
      modifies this`effects
      ensures effects == old(effects) + saved
      ensures RecordedAs(world, snapshot, tried, active, |old(effects)|, saved, r)
    {
      r, saved := tried, [];
      if tried.Err? {
        var error :=
          PersistReasoningFailure(snapshot, StatusFor(tried.error), Surfaced(tried.error), Some(active));
        r, saved := Err(error), [effects[|effects| - 1]];
      }
    }

    /** The acceptance of a completion, with its exact outcome. */
    method AcceptOrFail(snapshot: Snapshot, completion: Completion, allowExisting: bool)
      returns (r: Result<ReasoningResult, Error>, ghost trail: seq<Effect>)
      requires Balanced()
      modifies this
      ensures Balanced()
      ensures old(received) <= received && |received| <= |old(received)| + 4
      ensures effects == old(effects) + trail
      ensures calls >= old(calls)
      ensures Outcome(r, trail, calls - old(calls))
           == AcceptanceOutcome(world, config, snapshot, completion, allowExisting, old(calls), |old(effects)|)
      ensures r.Ok? ==> r.value.completion == completion || r.value.completion in received[|old(received)|..]
    {
      ghost var (n, m) := (calls, |effects|);
      trail := Tried(world, config, snapshot, SearchFrom(world, config, snapshot, completion, n), allowExisting, m);
      var tried, active := TryAccept(snapshot, completion, allowExisting);
      ghost var saved;
      r, saved := RecordIfFailed(snapshot, tried, active);
      OutcomeByCause(world, config, snapshot, completion, allowExisting, n, m, tried, saved, r);
      trail := trail + saved;
    }

    /**
     Acceptance fails closed. It returns a result only when one and the same completion parsed, kept
     to the governance terms, was audited, was approved and had its ACCEPTED usage saved, in that
     order. Every other exit attempts exactly one REJECTED or FAILED save under the usage id.
     */
    method PersistReasoningResult(snapshot: Snapshot, completion: Completion, allowExisting: bool)
      returns (r: Result<ReasoningResult, Error>, ghost trail: seq<Effect>)
      requires Balanced()
      modifies this
      ensures Balanced()
      ensures old(received) <= received && |received| <= |old(received)| + 4
      ensures effects == old(effects) + trail
      ensures calls >= old(calls)
      ensures Outcome(r, trail, calls - old(calls))
           == AcceptanceOutcome(world, config, snapshot, completion, allowExisting, old(calls), |old(effects)|)
      ensures IsClosed(world, config, snapshot, allowExisting, Outcome(r, trail, calls - old(calls)))
      ensures r.Ok? ==> r.value.completion == completion || r.value.completion in received[|old(received)|..]
    {
      r, trail := AcceptOrFail(snapshot, completion, allowExisting);
      AcceptanceIsClosed(world, config, snapshot, completion, allowExisting, old(calls), |old(effects)|);
    }

    /** The first call failed: nothing was accepted, and one failure is saved. */
    method FailFirstCall(snapshot: Snapshot, cause: Error)
      returns (r: Result<ReasoningResult, Error>, ghost trail: seq<Effect>)
      modifies this`effects
      ensures effects == old(effects) + trail
      ensures Outcome(r, trail, 0)
           == Failure(world, snapshot, [], FirstStatus(cause), FirstSurfaced(cause), None, |old(effects)|, 0)
    {
      var error := PersistReasoningFailure(snapshot, FirstStatus(cause), FirstSurfaced(cause), None);
      r := Err(error);
      trail := [effects[|effects| - 1]];
    }

    /** What becomes of the first answer: it is accepted or not, or its error is recorded. */
    method Conclude(snapshot: Snapshot, answer: Result<Completion, Error>)
      returns (r: Result<ReasoningResult, Error>, ghost trail: seq<Effect>)
      requires Balanced()
      modifies this
      ensures Balanced()
      ensures old(received) <= received && |received| <= |old(received)| + 4
      ensures effects == old(effects) + trail && calls >= old(calls)
      ensures Outcome(r, trail, calls - old(calls)) ==
        match answer {
          case Err(e) => Failure(world, snapshot, [], FirstStatus(e), FirstSurfaced(e), None, |old(effects)|, 0)
          case Ok(c) => AcceptanceOutcome(world, config, snapshot, c, false, old(calls), |old(effects)|)
        }
      ensures r.Ok? ==> answer.Ok?
      ensures r.Ok? ==> r.value.completion == answer.value || r.value.completion in received[|old(received)|..]
    {
      if answer.Err? {
        r, trail := FailFirstCall(snapshot, answer.error);
      } else {
        r, trail := PersistReasoningResult(snapshot, answer.value, false);
      }
    }

    /** The first call and then the acceptance, with the exact outcome. */
    method AnswerTicket(snapshot: Snapshot) returns (r: Result<ReasoningResult, Error>, ghost trail: seq<Effect>)
      requires Balanced()
      modifies this
      ensures Balanced()
      ensures old(received) <= received && |received| <= |old(received)| + 6
      ensures effects == old(effects) + trail
      ensures calls >= old(calls)
      ensures
        Outcome(r, trail, calls - old(calls)) == TicketOutcome(world, config, snapshot, old(calls), |old(effects)|)
      ensures r.Ok? ==> r.value.completion in received[|old(received)|..]
    {
      ghost var (n, m) := (calls, |effects|);
      var completed := CompleteAndCharge();
      ghost var (soFar, mid) := (calls, received);
      r, trail := Conclude(snapshot, completed);
      NewStaysNew(old(received), mid, received);
      TicketByAnswer(world, config, snapshot, n, m, Outcome(r, trail, calls - soFar));
    }

    /**
     One ticket from the first call to the result. At most six completions are received, the tokens
     charged are the sum of theirs, and the outcome is the exact one and closed: a result was
     accepted in full, a failure was saved once.
     */
    method ReasonAboutTicket(snapshot: Snapshot) returns (r: Result<ReasoningResult, Error>, ghost trail: seq<Effect>)
      requires Balanced()
      modifies this
      ensures Balanced()
      ensures config.hasQuota ==> Sum(charges) == Sum(TokensOf(received))
      ensures config.hasQuota ==> |charges| == |received|
      ensures config.hasQuota ==> forall i :: 0 <= i < |received| ==> charges[i] == received[i].totalTokens
      ensures !config.hasQuota ==> charges == []
      ensures old(received) <= received && |received| <= |old(received)| + 6
      ensures effects == old(effects) + trail
      ensures calls >= old(calls)
      ensures
        Outcome(r, trail, calls - old(calls)) == TicketOutcome(world, config, snapshot, old(calls), |old(effects)|)
      ensures IsClosed(world, config, snapshot, false, Outcome(r, trail, calls - old(calls)))
      ensures r.Ok? ==> r.value.completion in received[|old(received)|..]
    {
      r, trail := AnswerTicket(snapshot);
      TokensInOrder(received);
      TicketFailsClosed(world, config, snapshot, old(calls), |old(effects)|);
    }
  }

  /** What is new after the first part of a call is still new after the second. */
  lemma NewStaysNew(s: seq<Completion>, t: seq<Completion>, u: seq<Completion>)
    requires s <= t <= u
    ensures forall c :: c in t[|s|..] || c in u[|t|..] ==> c in u[|s|..]
  {
    assert u[|s|..] == t[|s|..] + u[|t|..];
  }

  /** In terms of the vocabulary: a completion is sound exactly when it parses and its output passes the gate. */
  lemma SoundExactly(w: World, config: Config, snapshot: Snapshot, c: Completion, fold: Folding)
    requires FoldsPlainText(fold) && ChecksTerms(w, fold)
    ensures Sound(w, config, snapshot, c) <==>
      && w.parse(c.text).Some?
      && var o := w.parse(c.text).value;
         var named := Terms(fold, o.summary) + Terms(fold, o.category) + Terms(fold, o.reasoning);
         && Terms(fold, snapshot.ticket) <= named
         && named <= Terms(fold, snapshot.ticket) + Terms(fold, snapshot.context) + config.authorized * GOVERNANCE_TERMS
  {
    if w.parse(c.text).Some? {
      GateIsExact(fold, snapshot.ticket, snapshot.context, w.parse(c.text).value, config.authorized);
    }
  }

  /** In terms of the vocabulary: what an accepted completion says. */
  lemma AcceptedOutputKeepsTerms(
    w: World, config: Config, snapshot: Snapshot, allowExisting: bool, es: seq<Effect>, c: Completion, fold: Folding)
    requires FoldsPlainText(fold) && ChecksTerms(w, fold)
    requires AcceptanceTrail(w, config, snapshot, allowExisting, es, c)
    ensures w.parse(c.text).Some?
    ensures Terms(fold, snapshot.ticket) <= OutputTerms(fold, w.parse(c.text).value)
    ensures OutputTerms(fold, w.parse(c.text).value)
      <= AllowedTerms(fold, snapshot.ticket, snapshot.context, config.authorized)
    ensures !allowExisting ==> exists publishRaises :: es[1].verdict == Envelope(true, Some(Allow), publishRaises)
  {
    GateIsExact(fold, snapshot.ticket, snapshot.context, w.parse(c.text).value, config.authorized);
    if !allowExisting {
      assert es[1].verdict == Envelope(true, Some(Allow), es[1].verdict.publishRaises);
    }
  }
}
