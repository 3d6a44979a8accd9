/**
 The ingress-dispatch outbox as data: the rows of its table, the guarded updates that change
 them, the identifiers derived for them, and the rules for retrying and giving up.
 A time is a number of seconds; `isoformat()` text is represented by the time it renders.
 */
module Outbox {
  import opened Wrappers
  import opened Text

  // ---------- Identifiers ----------

  /** The canonical text of a UUID: 36 characters, none of them '|'. */
  type CanonicalText = s: string | |s| == 36 && BarFree(s) witness seq(36, _ => '0')

  datatype Uuid = Uuid(text: CanonicalText)

  /** A version-5 UUID, represented by the seed it is hashed from. */
  datatype ClaimId = Uuid5(seed: string)

  function ClaimSeed(outboxId: Uuid, workerId: string, attempt: nat): string {
    outboxId.text + "|" + workerId + "|" + Decimal(attempt)
  }

  function DeriveClaimId(outboxId: Uuid, workerId: string, attempt: nat): Result<ClaimId, string> {
    if workerId == "" then Err("worker_id is required")
    else if attempt < 1 then Err("attempt_count must be >= 1")
    else Ok(Uuid5(ClaimSeed(outboxId, workerId, attempt)))
  }

  /** Splits a seed at its first and its last '|'. */
  function SplitSeed(seed: string): Option<(string, string, string)> {
    var i := FirstBar(seed);
    var j := AfterLastBar(seed);
    if i + 1 < j then Some((seed[..i], seed[i + 1..j - 1], seed[j..])) else None
  }

  /** A seed splits back into its fields, for every worker id, also one that contains '|'. */
  lemma SeedSplitsBack(outboxId: Uuid, workerId: string, attempt: nat)
    ensures SplitSeed(ClaimSeed(outboxId, workerId, attempt)) == Some((outboxId.text, workerId, Decimal(attempt)))
  {
    var seed := ClaimSeed(outboxId, workerId, attempt);
    var tail := Decimal(attempt);
    var front := outboxId.text + "|" + workerId;
    assert seed == outboxId.text + "|" + (workerId + "|" + tail);
    FirstBarUnique(outboxId.text, workerId + "|" + tail);
    assert BarFree(tail) by {
      assert AllDigits(tail);
    }
    assert seed == front + "|" + tail;
    AfterLastBarUnique(front, tail);
    assert seed[..36] == outboxId.text;
    assert seed[37..|front|] == workerId;
    assert seed[|front| + 1..] == tail;
  }

  /** Different (row, worker, ordinal) triples have different seeds. */
  lemma ClaimSeedInjective(o: Uuid, w: string, n: nat, o': Uuid, w': string, n': nat)
    ensures ClaimSeed(o, w, n) == ClaimSeed(o', w', n') <==> o == o' && w == w' && n == n'
  {
    SeedSplitsBack(o, w, n);
    SeedSplitsBack(o', w', n');
    NumberOfDecimal(n);
    NumberOfDecimal(n');
  }

  // ---------- Rows ----------

  datatype Status = Pending | Claimed | Dispatched | DeadLettered

  datatype MetaValue = Text(text: string) | Time(at: int) | Null

  /** The metadata keys in use; `boundary.*` describe the origin, the others what happened since. */
  datatype MetaKey =
    | BoundaryIngressId | BoundaryEventId | BoundarySourceType | BoundaryExternalMessageId
    | RetryNextAttemptAt | RetryLastError
    | DeadLetteredAt | DeadLetterReason
    | ReconcilerReason | ReconcilerRequeuedAt
    | ReplayDeadLetterTaskId | ReplayResetAt | ReplayResetBy | ReplayOriginalCreatedAt

  type Metadata = map<MetaKey, MetaValue>

  datatype Row = Row(
    outboxId: Uuid, ingressId: Uuid, tenantId: string, channel: string, status: Status,
    createdAt: int, nextAttemptAt: Option<int>, claimedAt: Option<int>, dispatchedAt: Option<int>,
    claimId: Option<ClaimId>, workerId: Option<string>, attemptCount: nat,
    lastError: Option<string>, metadata: Metadata)

  /** The table, by primary key. */
  type Table = map<Uuid, Row>

  /** Not set, or at most `at`. */
  predicate AtMost(t: Option<int>, at: int) {
    t.Some? ==> t.value <= at
  }

  // ---------- Guarded updates ----------

  /**
   One UPDATE statement on one row: the guard in its WHERE clause and the values it sets. A
   `snapshot` is the metadata read in the statement before.
   */
  datatype Write =
    | Claim(claimId: ClaimId, workerId: string, claimedAt: int)
    | MarkDispatched(claimId: ClaimId, dispatchedAt: int)
    | Reschedule(claimId: ClaimId, nextAttemptAt: int, error: string, snapshot: Metadata)
    | DeadLetter(claimId: ClaimId, error: string, deadLetteredAt: int, snapshot: Metadata)
    | RequeueStale(staleBefore: int, requeuedAt: int, reason: string, snapshot: Metadata)
    | Replay(replayedAt: int, replayedBy: string, taskId: string)

  predicate Guard(row: Row, w: Write) {
    match w
    case Claim(_, _, claimedAt) => row.status.Pending? && AtMost(row.nextAttemptAt, claimedAt)
    case MarkDispatched(claimId, _) => row.status.Claimed? && row.claimId == Some(claimId)
    case Reschedule(claimId, _, _, _) => row.status.Claimed? && row.claimId == Some(claimId)
    case DeadLetter(claimId, _, _, _) => row.status.Claimed? && row.claimId == Some(claimId)
    case RequeueStale(staleBefore, _, _, _) =>
      row.status.Claimed? && row.claimedAt.Some? && row.claimedAt.value <= staleBefore
    case Replay(_, _, _) => row.status.Pending? || row.status.DeadLettered?
  }

  function After(row: Row, w: Write): Row {
    match w
    case Claim(claimId, workerId, claimedAt) =>
      row.(status := Claimed, claimedAt := Some(claimedAt), claimId := Some(claimId),
           workerId := Some(workerId), attemptCount := row.attemptCount + 1, lastError := None)
    case MarkDispatched(_, dispatchedAt) =>
      row.(status := Dispatched, dispatchedAt := Some(dispatchedAt), lastError := None)
    case Reschedule(_, nextAttemptAt, error, snapshot) =>
      row.(status := Pending, claimId := None, workerId := None, claimedAt := None,
           nextAttemptAt := Some(nextAttemptAt), lastError := Some(error),
           metadata := snapshot[RetryNextAttemptAt := Time(nextAttemptAt)][RetryLastError := Text(error)])
    case DeadLetter(_, error, deadLetteredAt, snapshot) =>
      row.(status := DeadLettered, lastError := Some(error),
           metadata := snapshot[DeadLetteredAt := Time(deadLetteredAt)][DeadLetterReason := Text(error)])
    case RequeueStale(_, requeuedAt, reason, snapshot) =>
      row.(status := Pending, claimId := None, workerId := None, claimedAt := None,
           lastError := Some(reason),
           metadata := snapshot[ReconcilerReason := Text(reason)][ReconcilerRequeuedAt := Time(requeuedAt)])
    case Replay(replayedAt, replayedBy, taskId) =>
      row.(status := Pending, claimId := None, workerId := None, claimedAt := None, dispatchedAt := None,
           attemptCount := 0, nextAttemptAt := Some(replayedAt), createdAt := replayedAt, lastError := None,
           metadata := row.metadata[ReplayDeadLetterTaskId := Text(taskId)]
                                   [ReplayResetAt := Time(replayedAt)]
                                   [ReplayResetBy := Text(replayedBy)]
                                   [ReplayOriginalCreatedAt := OriginalCreation(row)])
  }

  /** The creation time a replay remembers: the one remembered before, or the row's own. */
  function OriginalCreation(row: Row): MetaValue {
    var k := ReplayOriginalCreatedAt;
    if k in row.metadata && !row.metadata[k].Null? && row.metadata[k] != Text("") then row.metadata[k]
    else Time(row.createdAt)
  }

  /**
   An operator replay starts a row over: pending and due at once, without claim or attempts, its age
   counted anew. However often it is replayed, the metadata tells when it was first created.
   */
  lemma ReplayStartsOver(row: Row, at: int, who: string, task: string, later: int, who': string, task': string)
    requires ReplayOriginalCreatedAt !in row.metadata
    ensures
      var once := After(row, Replay(at, who, task));
      var twice := After(once, Replay(later, who', task'));
      && once.status == Pending && once.attemptCount == 0 && once.claimId == None && once.workerId == None
      && once.claimedAt == None && once.dispatchedAt == None && once.lastError == None
      && once.nextAttemptAt == Some(at) && once.createdAt == at
      && once.metadata == row.metadata[ReplayDeadLetterTaskId := Text(task)][ReplayResetAt := Time(at)]
                                      [ReplayResetBy := Text(who)][ReplayOriginalCreatedAt := Time(row.createdAt)]
      && twice.metadata == row.metadata[ReplayDeadLetterTaskId := Text(task')][ReplayResetAt := Time(later)]
                                       [ReplayResetBy := Text(who')][ReplayOriginalCreatedAt := Time(row.createdAt)]
  {
  }

  /** The claim that a worker sends as its attempt number `attempt` on the row. */
  function ClaimFor(id: Uuid, workerId: string, attempt: nat, now: int): Write {
    Claim(Uuid5(ClaimSeed(id, workerId, attempt)), workerId, now)
  }

  /** The statement hits one row or none. */
  predicate Hits(t: Table, id: Uuid, w: Write) { id in t && Guard(t[id], w) }

  function Update(t: Table, id: Uuid, w: Write): Table {
    if Hits(t, id, w) then t[id := After(t[id], w)] else t
  }

  /** The metadata that is read before an update writes it back; none for a missing row. */
  function CurrentMetadata(t: Table, id: Uuid): Metadata {
    if id in t then t[id].metadata else map[]
  }

  // ---------- Creation ----------

  datatype SourceType =
    | Zendesk | Whatsapp | TwilioVoice | TwilioSms | Email | Shulex | Lark | Slack | RestApi | Generic

  function SourceValue(source: SourceType): string {
    match source
    case Zendesk => "zendesk"
    case Whatsapp => "whatsapp"
    case TwilioVoice => "twilio_voice"
    case TwilioSms => "twilio_sms"
    case Email => "email"
    case Shulex => "shulex"
    case Lark => "lark"
    case Slack => "slack"
    case RestApi => "rest_api"
    case Generic => "generic"
  }

  /**
   A captured ingress. `channelHints` are the channel entries of its metadata and then of its
   canonical payload, stripped, lower-cased, and without empty ones.
   */
  datatype IngressRecord = IngressRecord(
    ingressId: Uuid, tenantId: Option<string>, source: SourceType, externalMessageId: Option<string>,
    eventId: Option<string>, normalizationOk: bool, replayNew: bool, receivedAt: int,
    channelHints: seq<string>)

  const ALLOWED_CHANNELS: set<string> := {"email", "whatsapp", "shopify"}

  predicate Decisive(channel: string) { channel == "voice" || channel in ALLOWED_CHANNELS }

  /** The candidates in order; the first decisive one settles the channel. */
  function FirstDecisive(candidates: seq<string>): Option<string> {
    if candidates == [] then None
    else if Decisive(candidates[0]) then Some(candidates[0])
    else FirstDecisive(candidates[1..])
  }

  function ChannelCandidates(record: IngressRecord): seq<string> {
    record.channelHints + [SourceValue(record.source)]
  }

  function DispatchChannel(record: IngressRecord): Option<string> {
    if record.source.TwilioVoice? then None else
    match FirstDecisive(ChannelCandidates(record))
    case Some(c) => if c == "voice" then None else Some(c)
    case None => if record.source.Email? || record.source.Whatsapp? then Some(SourceValue(record.source)) else None
  }

  /** The white space that Python strips from a string. */
  predicate IsSpace(c: char) {
    var n := c as int;
    || 0x09 <= n <= 0x0D || 0x1C <= n <= 0x20 || n == 0x85 || n == 0xA0 || n == 0x1680
    || 0x2000 <= n <= 0x200A || n == 0x2028 || n == 0x2029 || n == 0x202F || n == 0x205F || n == 0x3000
  }

  predicate Blank(s: string) { forall i :: 0 <= i < |s| ==> IsSpace(s[i]) }

  predicate Eligible(record: IngressRecord) {
    && record.tenantId.Some? && !Blank(record.tenantId.value)
    && record.normalizationOk && record.replayNew && record.eventId.Some?
    && DispatchChannel(record).Some?
  }

  function OptionalText(s: Option<string>): MetaValue {
    match s
    case Some(text) => Text(text)
    case None => Null
  }

  /** The row for a captured ingress, or none when the ingress is not to be dispatched. */
  function MakeRow(record: IngressRecord, outboxId: Uuid, createdAt: Option<int>): Option<Row> {
    if !Eligible(record) then None else
      var ts := if createdAt.Some? then createdAt.value else record.receivedAt;
      Some(Row(outboxId, record.ingressId, record.tenantId.value, DispatchChannel(record).value, Pending,
               ts, Some(ts), None, None, None, None, 0, None,
               map[BoundaryIngressId := Text(record.ingressId.text),
                   BoundaryEventId := OptionalText(record.eventId),
                   BoundarySourceType := Text(SourceValue(record.source)),
                   BoundaryExternalMessageId := OptionalText(record.externalMessageId)]))
  }

  /** Some row already belongs to the ingress. */
  predicate KnownIngress(t: Table, ingressId: Uuid) {
    exists id :: id in t && t[id].ingressId == ingressId
  }

  /** INSERT ... ON CONFLICT (ingress_id) DO NOTHING; a primary key in use rejects the statement. */
  function Insert(t: Table, row: Row): Table {
    if KnownIngress(t, row.ingressId) || row.outboxId in t then t else t[row.outboxId := row]
  }

  /** The candidate at `i` is the channel `c`, and none before it is allowed or says voice. */
  ghost predicate SettledAt(candidates: seq<string>, i: int, c: string) {
    && 0 <= i < |candidates| && candidates[i] == c
    && (forall k :: 0 <= k < i ==> candidates[k] != "voice" && candidates[k] !in ALLOWED_CHANNELS)
  }

  lemma {:induction false} FirstDecisiveIs(candidates: seq<string>, c: string)
    ensures FirstDecisive(candidates) == Some(c) <==> Decisive(c) && exists i :: SettledAt(candidates, i, c)
  {
    if candidates != [] {
      var rest := candidates[1..];
      FirstDecisiveIs(rest, c);
      forall i | !Decisive(candidates[0]) && Decisive(c)
        ensures SettledAt(rest, i, c) <==> SettledAt(candidates, i + 1, c)
      {
        assert forall k :: 0 <= k < |rest| ==> rest[k] == candidates[k + 1];
        if SettledAt(rest, i, c) {
          forall k | 0 <= k < i + 1
            ensures !Decisive(candidates[k])
          {
            assert k == 0 || candidates[k] == rest[k - 1];
          }
        }
      }
      if Decisive(candidates[0]) && candidates[0] == c {
        assert SettledAt(candidates, 0, c);
      }
      if Decisive(c) && !Decisive(candidates[0]) {
        if i :| SettledAt(rest, i, c) {
          assert SettledAt(candidates, i + 1, c);
        }
        if i :| SettledAt(candidates, i, c) {
          assert SettledAt(rest, i - 1, c);
        }
      }
    }
  }

  /**
   A row is created for channel `c` exactly when `c` is allowed and no candidate before it is
   allowed or says "voice"; the fallback on the source type never adds a channel.
   */
  lemma ChannelIsFirstAllowed(record: IngressRecord, c: string)
    ensures DispatchChannel(record) == Some(c) <==>
      && !record.source.TwilioVoice?
      && c in ALLOWED_CHANNELS
      && (exists i :: SettledAt(record.channelHints + [SourceValue(record.source)], i, c))
  {
    var candidates := ChannelCandidates(record);
    FirstDecisiveIs(candidates, c);
    if record.source.Email? || record.source.Whatsapp? {
      LastDecides(candidates);
    }
  }

  lemma {:induction false} LastDecides(candidates: seq<string>)
    requires candidates != [] && Decisive(candidates[|candidates| - 1])
    ensures FirstDecisive(candidates).Some?
  {
    if !Decisive(candidates[0]) {
      LastDecides(candidates[1..]);
    }
  }

  // ---------- Retrying and giving up ----------

  /** The worker id under which every dead-letter sweep claims. */
  const RECONCILER: string := "reconciler:ingress-dispatch-dead-letter"

  const MAX_RETRY_DELAY_SECONDS: nat := 3600

  /** The runtime's limits; its constructor rejects any that is below 1. */
  datatype Limits = Limits(maxAttempts: nat, maxAgeSeconds: nat, retryBaseSeconds: nat)

  predicate ValidLimits(l: Limits) {
    l.maxAttempts >= 1 && l.maxAgeSeconds >= 1 && l.retryBaseSeconds >= 1
  }

  function PowerOfTwo(n: nat): (p: nat)
    ensures p >= 1
  {
    if n == 0 then 1 else 2 * PowerOfTwo(n - 1)
  }

  function RetryDelay(l: Limits, attemptCount: nat): nat {
    var exponent := if attemptCount > 1 then attemptCount - 1 else 0;
    var delay := l.retryBaseSeconds * PowerOfTwo(exponent);
    if delay < MAX_RETRY_DELAY_SECONDS then delay else MAX_RETRY_DELAY_SECONDS
  }

  /** Out of attempts, or too old at `now`. */
  predicate Exhausted(l: Limits, row: Row, now: int) {
    row.attemptCount >= l.maxAttempts || row.createdAt + l.maxAgeSeconds <= now
  }

  /** When a failed attempt is due again: a positive wish of the caller wins over the back-off. */
  function NextAttempt(l: Limits, row: Row, now: int, retryAfter: Option<int>): int {
    now + if retryAfter.Some? && retryAfter.value > 0 then retryAfter.value else RetryDelay(l, row.attemptCount)
  }

  /** The waits after the first `n` failures, with the default back-off. */
  function TotalDelay(l: Limits, n: nat): nat {
    if n == 0 then 0 else TotalDelay(l, n - 1) + RetryDelay(l, n)
  }

  lemma {:induction false} PowerOfTwoGrows(m: nat, n: nat)
    requires m <= n
    ensures PowerOfTwo(m) <= PowerOfTwo(n)
  {
    if m < n {
      PowerOfTwoGrows(m, n - 1);
    }
  }

  lemma ScaleGrows(b: nat, x: nat, y: nat)
    requires x <= y
    ensures b * x <= b * y
  {
  }

  /** The delay lies in [1, 3600] and never shrinks as attempts go by. */
  lemma RetryDelayBounds(l: Limits, m: nat, n: nat)
    requires ValidLimits(l) && m <= n
    ensures 1 <= RetryDelay(l, m) <= RetryDelay(l, n) <= 3600
  {
    var e := if m > 1 then m - 1 else 0;
    var f := if n > 1 then n - 1 else 0;
    PowerOfTwoGrows(e, f);
    ScaleGrows(l.retryBaseSeconds, PowerOfTwo(e), PowerOfTwo(f));
    ScaleGrows(PowerOfTwo(e), 1, l.retryBaseSeconds);
  }

  /**
   When a rescheduled row is due: strictly after the failure; exactly after the wish of the caller
   when that is positive; and otherwise after the wait by which the total back-off grows with this
   attempt, which is base * 2^(n - 1) up to an hour.
   */
  lemma RescheduleIsLater(l: Limits, row: Row, now: int, retryAfter: Option<int>)
    requires ValidLimits(l)
    ensures NextAttempt(l, row, now, retryAfter) > now
    ensures retryAfter.Some? && retryAfter.value > 0 ==> NextAttempt(l, row, now, retryAfter) == now + retryAfter.value
    ensures retryAfter.None? || retryAfter.value <= 0 ==>
      var n := if row.attemptCount >= 1 then row.attemptCount else 1;
      BacksOff(l, n, NextAttempt(l, row, now, retryAfter) - now)
  {
    RetryDelayBounds(l, row.attemptCount, row.attemptCount);
  }

  /** The wait after failure number `n`, in terms of the total and in closed form. */
  predicate BacksOff(l: Limits, n: nat, wait: int) {
    && n >= 1
    && wait == TotalDelay(l, n) - TotalDelay(l, n - 1)
    && (l.retryBaseSeconds * PowerOfTwo(n - 1) < 3600 ==> wait == l.retryBaseSeconds * PowerOfTwo(n - 1))
    && (l.retryBaseSeconds * PowerOfTwo(n - 1) >= 3600 ==> wait == 3600)
  }

  /** Before the cap, the total wait doubles with every failure: base * (2^n - 1). */
  lemma {:induction false} TotalDelayDoubles(l: Limits, n: nat)
    requires n >= 1 && l.retryBaseSeconds * PowerOfTwo(n - 1) <= 3600
    ensures TotalDelay(l, n) == l.retryBaseSeconds * (PowerOfTwo(n) - 1)
  {
    var b := l.retryBaseSeconds;
    var p := PowerOfTwo(n - 1);
    assert RetryDelay(l, n) == b * p;
    if n > 1 {
      ScaleGrows(b, PowerOfTwo(n - 2), p);
      TotalDelayDoubles(l, n - 1);
    }
    Doubling(b, p);
  }

  lemma Doubling(b: int, p: int)
    ensures b * (2 * p - 1) == b * (p - 1) + b * p
  {
  }

  /** In any case n failures wait at most n hours. */
  lemma {:induction false} TotalDelayCapped(l: Limits, n: nat)
    ensures TotalDelay(l, n) <= 3600 * n
  {
    if n > 0 {
      TotalDelayCapped(l, n - 1);
    }
  }
}
