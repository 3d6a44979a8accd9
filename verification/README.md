# Outbox, cognition and rendering: verified models

This project models the parts of the repository whose correctness depends on interleavings, on
failure paths, or on exact byte and string arithmetic, and proves what those parts promise.

| file | models |
|---|---|
| `Outbox.dfy` | the ingress-dispatch outbox as data: rows, guarded updates, identifiers, channel choice, back-off |
| `OutboxProtocol.dfy`, `OutboxFencing.dfy`, `OutboxBudget.dfy`, `OutboxGuarantees.dfy`, `OutboxOutcome.dfy` | the claim protocol as a state machine over every interleaving of workers, sweeps and operator replays, and its theorems |
| `OutboxStore.dfy`, `OutboxRuntime.dfy` | the persistence class and the runtime over one table: listing, claiming, ending claims, the two sweeps |
| `Diagnostic.dfy`, `Semantic.dfy`, `Vision.dfy` | the diagnostic runtime against every behaviour of its provider, database and governance; the governance-term gate; the choice of attachments to show |
| `MediaFetch.dfy` | the two stores of WhatsApp media fetches and when they agree |
| `Sniffing.dfy`, `Attachments.dfy` | the type of an attachment by its first bytes; bounded reading, storing and getting |
| `StableSort.dfy`, `TraceOrdering.dfy`, `TopologyLayout.dfy` | the deterministic sort and its two users |
| `PngFile.dfy`, `PngRaster.dfy`, `PngText.dfy` | the PNG text renderer, a reader that takes its files apart again, and what makes a file valid |
| `Text.dfy`, `Wrappers.dfy` | string order, decimal numerals, fields separated by a bar, options and results |

Code that changes state is modelled by methods and classes proved against functions on values;
what the code promises is proved about those functions, over all inputs, runs or states.

## Assumptions

- A version-5 UUID is represented by the seed it is hashed from, so different seeds give different
  ids. What is proved about the seeds themselves (they split back uniquely, or they collide) does
  not depend on this.
- A UUID as text has 36 characters and no bar. Times are integers.
- Encryption: decrypting what was encrypted gives it back. Compression: the same. CRC, digests, PDF
  page counts, ZIP listings, UTF-8 checks, case folding and upper-casing are parameters, for all values;
  of case folding it is assumed that it leaves `[a-z0-9_]`, space and newline alone and lowers
  capital letters.
- The provider, the outcome of every write, every governance verdict and the check of an output are
  arbitrary; what is said about governance terms is for the check that looks for them.
- Dispatch workers do not use the worker id of the dead-letter reconciler (`OutboxOutcome.dfy` only).
- Layout coordinates are rounded by an arbitrary function after each operation; where exactness
  matters it is assumed to keep integers up to 2^53, as doubles do.

## Where the code and its documentation differ, or a promise has limits

- Claim fencing has two limits. An update made with a claim id hits exactly when a claim in force has
  the same row, worker and ordinal, so a claim id can come back after an operator replay, which sets
  the attempt count back to 0, or when reads overlap under one worker id, as those of two dead-letter
  sweeps at once do. `OutboxFencing.EqualClaimIdsSpanOrOverlap` says that these are the only cases,
  and a concrete run shows each of them.
- The claim update does not look at the attempt count again, so `max_attempts` can be exceeded: by
  one for each other process that claims, and one for each claim made with `allow_exhausted`. The bound is reached.
- A DEAD_LETTERED row is final except for an operator replay, which makes it PENDING again. A row
  that is exhausted at some time is not dispatched from then on, except by a dispatch worker that holds
  it or has already read it (`OutboxOutcome.ExhaustedRows`, `OutboxOutcome.CanBeDispatchedExactly`).
- Updates that write metadata back would wipe out the origin entries of a row if they were read before
  the row was created; `OutboxGuarantees.OriginIsKeptExactly` says that nothing else does. The callers
  read existing rows only.
- `packages/observability/src/ordering.ts` documents `payload.observedAt` as third tie-break; the code uses
  the kind. A node without `observedAt` sorts last, not first, because the separator follows the
  (empty) timestamp in the key. `TraceOrdering.RenderedExactly` and `TraceOrdering.DocumentedExactly`
  say exactly when the list is the one meant.
- `packages/topology/src/layout.ts` documents an order by node id within a row; the code sorts by label first.
  `TopologyLayout.RowsByIdExactly` says exactly when that makes no difference. Labels and ids with a
  colon can give different nodes one key (`TopologyLayout.SharedKeyExactly`), and large measures can be
  rounded onto each other: `TopologyLayout.OverlapExactly` says when nodes share a position, for every
  rounding.
- The two media-fetch stores agree exactly as long as no fetch id is taken by another key and the
  columns can hold the values. Tenant ids with a bar can make two keys share an id; only then can the
  store in memory lose a resolved row.
- The category is part of the checked output text, so with a given category a rewrite passes exactly
  when the category itself names only allowed terms. The category "unclassified" is always offered and
  names none, so the gate can be passed for every ticket.
- The PNG renderer documents a valid file. `PngText.ValidExactly` says exactly when it emits one; at
  scale 0, for instance, it emits the same file of size 0 x 0 for every text.

## Model

| member | source | states |
|---|---|---|
| Outbox.SeedSplitsBack | apps/backend/app/boundary/ingress_dispatch_outbox.py:760-772 | a claim seed splits back, at its first and last bar, into row id, worker id and ordinal, for every worker id including ones with bars |
| Outbox.ClaimSeedInjective | apps/backend/app/boundary/ingress_dispatch_outbox.py:760-772 | two claim seeds are equal iff row, worker and ordinal are |
| Outbox.ChannelIsFirstAllowed | apps/backend/app/boundary/ingress_dispatch_outbox.py:799-812 | the dispatch channel is `c` iff the source is not voice, `c` is allowed and no earlier candidate is allowed or says voice; the final fallback never adds a channel |
| Outbox.RetryDelayBounds | apps/backend/app/boundary/ingress_dispatch_outbox.py:456-461 | the default delay lies in [1, 3600] and never shrinks with more attempts |
| Outbox.RescheduleIsLater | apps/backend/app/boundary/ingress_dispatch_outbox.py:327-347 | a rescheduled row is due strictly after the failure: exactly after a positive wish of the caller, else after the wait by which the total back-off grows with this attempt, base * 2^(n - 1) up to 3600 |
| Outbox.ReplayStartsOver | apps/backend/app/services/queue_operations_service.py:562-585 | an operator replay makes the row pending and due at once with no claim, no attempts and a new age; over repeated replays the metadata keeps the first creation time |
| Outbox.TotalDelayDoubles | apps/backend/app/boundary/ingress_dispatch_outbox.py:456-461 | before the cap, the first n failures wait base * (2^n - 1) in total |
| Outbox.TotalDelayCapped | apps/backend/app/boundary/ingress_dispatch_outbox.py:456-461 | n failures never wait more than 3600 * n |
| OutboxProtocol.NextUpdates | apps/backend/app/boundary/ingress_dispatch_outbox.py:586-750 | after each update, which updates hit the row next and from when on: exactly those listed, nothing after a dispatch |
| OutboxProtocol.WriteKeepsWellFormed | apps/backend/app/boundary/ingress_dispatch_outbox.py:586-750 | every guarded update keeps the columns of a row consistent with its status |
| OutboxProtocol.MadeRowWellFormed | apps/backend/app/boundary/ingress_dispatch_outbox.py:826-853 | a created row is consistent |
| OutboxProtocol.RowsAlwaysWellFormed | apps/backend/app/boundary/ingress_dispatch_outbox.py:586-750 | in every reachable table every row is well formed (claim fields iff not PENDING, at least one attempt once claimed, next_attempt_at <= claimed_at, dispatched_at iff DISPATCHED) and the only row of its ingress |
| OutboxFencing.StepKeepsFence | apps/backend/app/boundary/ingress_dispatch_outbox.py:290-300 | each step of any process keeps the fencing invariant (a read ordinal is at most the attempt count, claims of a row grow, the holder is the latest claim) |
| OutboxFencing.AlwaysFenced | apps/backend/app/boundary/ingress_dispatch_outbox.py:290-300 | the fencing invariant holds in every reachable state |
| OutboxFencing.EqualClaimIdsSpanOrOverlap | apps/backend/app/boundary/ingress_dispatch_outbox.py:284-312 | in every run, two successful claims with one claim id are of one row and worker id, and an operator replay lies between their reads or their reads overlapped |
| OutboxFencing.AlwaysSequential | apps/backend/app/boundary/ingress_dispatch_outbox.py:284-312 | a worker id under which no read starts while another one is in flight has one read in flight at most and no overlapping claims |
| OutboxFencing.EqualClaimIdsSpanAReplay | apps/backend/app/boundary/ingress_dispatch_outbox.py:284-312 | so under such a worker id, two claims with one claim id are of one row with an operator replay between their reads |
| OutboxFencing.ClaimIdsAreUnique | apps/backend/app/boundary/ingress_dispatch_outbox.py:284-312 | the claims of a row that is not replayed, by worker ids used sequentially, have different claim ids, whatever happens to other rows |
| OutboxFencing.EndingHitsSameClaim | apps/backend/app/boundary/ingress_dispatch_outbox.py:619-713 | in every run, mark-dispatched, reschedule or dead-letter with the id of a claim hits iff a claim in force has the same row, worker and ordinal |
| OutboxFencing.SequentialIsNotOverlapped | apps/backend/app/boundary/ingress_dispatch_outbox.py:284-312 | the claims of a worker id that is used sequentially are not overlapped by later ones |
| OutboxFencing.EndingHitsExactlyInForce | apps/backend/app/boundary/ingress_dispatch_outbox.py:619-713 | since the last replay of its row, the id of a claim that no later claim of its worker id overlaps hits iff that claim is still in force; otherwise the table does not change |
| OutboxFencing.ReplayReusesClaimId | apps/backend/app/services/queue_operations_service.py:562-585 | a replay resets the attempt count, so the reconciler can get a claim id a second time, and a dead-letter update meant for the first claim hits the second (a run for every limits and eligible ingress) |
| OutboxFencing.OverlappingSweepsShareClaimId | apps/backend/app/boundary/ingress_dispatch_outbox.py:428-450 | two dead-letter sweeps that read one exhausted row before either claims it can get one claim id, and the dead-letter update of the first ends the claim of the second (a run for every limits and eligible ingress) |
| OutboxBudget.StepKeepsBudget | apps/backend/app/boundary/ingress_dispatch_outbox.py:284-312 | attempts plus ordinary reads in flight stay within the budget at every step |
| OutboxBudget.AttemptsAreBounded | apps/backend/app/boundary/ingress_dispatch_outbox.py:463-472 | with w ordinary processes and R claims made with allow_exhausted no row ever has more than max_attempts + (w - 1) + R attempts |
| OutboxBudget.BoundIsReached | apps/backend/app/boundary/ingress_dispatch_outbox.py:594-613 | the bound is tight: for every w there is a run, without allow_exhausted, that reaches max_attempts + (w - 1) |
| OutboxGuarantees.MadeRowTellsOrigin | apps/backend/app/boundary/ingress_dispatch_outbox.py:815-853 | a row is made iff the ingress has a tenant that is not blank, is normalized, new and has an event, is not voice, and some candidate is an allowed channel with no decisive one before it; it carries its origin, is fresh, and can be claimed from its creation time on until it is over age |
| OutboxGuarantees.OriginIsKeptExactly | apps/backend/app/boundary/ingress_dispatch_outbox.py:645-750 | although metadata is read in one step and overwritten in another, every row keeps boundary entries, ingress, tenant and channel, and its creation time unless replayed, throughout a run iff no update writes back the empty metadata that was read when there was no row |
| OutboxGuarantees.OriginIsNeverLost | apps/backend/app/boundary/ingress_dispatch_outbox.py:645-750 | so no origin is lost when metadata is only read of rows that exist, as the callers do |
| OutboxGuarantees.EarlyReadLosesOrigin | apps/backend/app/boundary/ingress_dispatch_outbox.py:715-750 | metadata read before the row is created and written back after its first claim wipes out the origin (a run for every limits and eligible ingress) |
| OutboxGuarantees.BirthIsPermanent | apps/backend/app/boundary/ingress_dispatch_outbox.py:478-496 | what was recorded at creation is what later states are compared with |
| OutboxGuarantees.FinishedRowsStay | apps/backend/app/boundary/ingress_dispatch_outbox.py:586-750 | a DISPATCHED row never changes again, a DEAD_LETTERED one only by an operator replay of it |
| OutboxGuarantees.RowsOnlyAge | apps/backend/app/boundary/ingress_dispatch_outbox.py:586-750 | unless the row is replayed, its attempts never fall and its creation time never moves |
| OutboxGuarantees.ExhaustedForGood | apps/backend/app/boundary/ingress_dispatch_outbox.py:463-472 | a row once exhausted is exhausted in every later state at every later time, unless it is replayed |
| OutboxGuarantees.DueRowsAreClaimed | apps/backend/app/boundary/ingress_dispatch_outbox.py:246-312 | in every reachable state, reading and claiming a PENDING row with allow_exhausted takes it as its next attempt iff it is due, and changes nothing otherwise |
| OutboxGuarantees.StaleClaimIsFreed | apps/backend/app/boundary/ingress_dispatch_outbox.py:715-750 | a stale claim of a reachable row is freed by the sweep update and is due at once |
| OutboxOutcome.AlwaysBySource | apps/backend/app/boundary/ingress_dispatch_outbox.py:431-448 | in every run of the program, reads with allow_exhausted are the reconciler's and a claimed row carries an id derived for its worker |
| OutboxOutcome.ClaimableExactly | apps/backend/app/boundary/ingress_dispatch_outbox.py:270-289 | a dispatch worker can claim a PENDING row at some time from t on iff it has attempts left, is due before it is over age, and is not over age at t |
| OutboxOutcome.ExhaustedRows | apps/backend/app/boundary/ingress_dispatch_outbox.py:463-472 | a row that is exhausted at t is hopeful only while a dispatch worker holds it or has read it |
| OutboxOutcome.FreeRow | apps/backend/app/boundary/ingress_dispatch_outbox.py:715-750 | from every reachable state a claimed row can be freed, with its attempts and times kept |
| OutboxOutcome.HopefulRowIsDispatched | apps/backend/app/workers/ingress_dispatch_tasks.py:188-273 | a row that a dispatch worker holds, can claim from t on, or is about to claim can be dispatched by reads made from t on |
| OutboxOutcome.HopelessForGood | apps/backend/app/boundary/ingress_dispatch_outbox.py:428-454 | any other unfinished row is never dispatched by a run from t on without a replay of it; when it ends, the reconciler has dead-lettered it |
| OutboxOutcome.CanBeDispatchedExactly | apps/backend/app/workers/ingress_dispatch_tasks.py:188-273 | for every time t, an unfinished row can still be dispatched by a run from t on without a replay iff a dispatch worker holds it, can claim it from t on, or is about to claim it |
| OutboxOutcome.NoRowIsLost | apps/backend/app/boundary/ingress_dispatch_outbox.py:246-454 | from every reachable state and every time t, every unfinished row can be finished by a run from t on: dispatched in exactly those cases, dead-lettered in any case |
| OutboxStore.ListingIsUnique | apps/backend/app/boundary/ingress_dispatch_outbox.py:568-572 | the table order makes the listing of a query, and so each page of it, definite |
| OutboxStore.PagesJoin | apps/backend/app/repositories/pagination.py:60-88 | consecutive pages make up a longer one: nothing is skipped or shown twice |
| OutboxStore.PageCoversMatches | apps/backend/app/repositories/pagination.py:60-88 | a first page whose limit covers the matches lists exactly them |
| OutboxStore.ListOneMore | apps/backend/app/boundary/ingress_dispatch_outbox.py:543-584 | taking the first of what is left keeps the page in order and complete |
| OutboxStore.PageInColumns | apps/backend/app/boundary/ingress_dispatch_outbox.py:543-584 | every row of a page has the columns that the query asks for; rows stand by next attempt with unset ones last, then creation, then id |
| OutboxStore.TotalInColumns | apps/backend/app/boundary/ingress_dispatch_outbox.py:543-584 | the matches are the rows with those columns, and a page has as many as offset and limit leave of them |
| OutboxStore.OutboxStore.GetOutboxByIngress | apps/backend/app/boundary/ingress_dispatch_outbox.py:533-541 | finds a row iff the ingress has one |
| OutboxStore.OutboxStore.CreateOutboxForIngress | apps/backend/app/boundary/ingress_dispatch_outbox.py:478-496 | nothing for an ineligible ingress, the untouched existing row for a known one, else the new row; a taken primary key is an error |
| OutboxStore.OutboxStore.Execute | apps/backend/app/boundary/ingress_dispatch_outbox.py:586-617 | one guarded UPDATE: hits one row or none, and says which |
| OutboxStore.OutboxStore.ClaimOutbox | apps/backend/app/boundary/ingress_dispatch_outbox.py:586-617 | claims iff the row is PENDING and due; the columns of the claimed row, and all other rows unchanged |
| OutboxStore.OutboxStore.MarkOutboxDispatched | apps/backend/app/boundary/ingress_dispatch_outbox.py:619-643 | dispatches iff the row is CLAIMED under the claim id; its columns, and all other rows unchanged |
| OutboxStore.OutboxStore.RescheduleOutbox | apps/backend/app/boundary/ingress_dispatch_outbox.py:645-680 | gives the row back iff it is CLAIMED under the claim id; its columns with the retry entries in its metadata, and all other rows unchanged |
| OutboxStore.OutboxStore.DeadLetterOutbox | apps/backend/app/boundary/ingress_dispatch_outbox.py:682-713 | dead-letters iff the row is CLAIMED under the claim id; its columns with the dead-letter entries, and all other rows unchanged |
| OutboxStore.OutboxStore.RequeueStaleOutbox | apps/backend/app/boundary/ingress_dispatch_outbox.py:715-750 | frees the row iff it is CLAIMED since staleBefore or earlier; its columns with the reconciler entries, and all other rows unchanged |
| OutboxStore.OutboxStore.FirstOf | apps/backend/app/boundary/ingress_dispatch_outbox.py:568-572 | the row that comes first in table order |
| OutboxStore.OutboxStore.ListOutbox | apps/backend/app/boundary/ingress_dispatch_outbox.py:543-584 | the page of the matching rows in table order, with their total; a negative offset or a limit outside 1..500 is an error |
| OutboxRuntime.OutboxRuntime.Create | apps/backend/app/boundary/ingress_dispatch_outbox.py:201-219 | settings below 1 are rejected, others are taken over |
| OutboxRuntime.OutboxRuntime.FindOutbox | apps/backend/app/boundary/ingress_dispatch_outbox.py:260-265 | the row by id, else by ingress |
| OutboxRuntime.OutboxRuntime.SubmitClaim | apps/backend/app/boundary/ingress_dispatch_outbox.py:290-312 | the claim update for a row read before, and the row and the reason that are reported when it misses |
| OutboxRuntime.OutboxRuntime.ClaimDueOutbox | apps/backend/app/boundary/ingress_dispatch_outbox.py:246-312 | claims iff the row exists, is pending, is due and has attempts and age left (or may be claimed without); the claim id is that of row, worker and next attempt; else nothing changes and the first failing condition is named |
| OutboxRuntime.OutboxRuntime.Reschedule | apps/backend/app/boundary/ingress_dispatch_outbox.py:327-347 | gives the row back iff it is claimed under the claim id: due exactly after a positive wish of the caller, else after TotalDelay(n) - TotalDelay(n - 1), which is base * 2^(n - 1) and from 3600 on exactly 3600 |
| OutboxRuntime.OutboxRuntime.RequeueStaleClaimed | apps/backend/app/boundary/ingress_dispatch_outbox.py:364-406 | in columns: the page has the CLAIMED rows of the tenant with claimed_at <= staleBefore, as many as the limit allows; each is freed and reported in order, all others are unchanged, and none is left when they number at most the limit |
| OutboxRuntime.OutboxRuntime.RequeuePage | apps/backend/app/boundary/ingress_dispatch_outbox.py:386-406 | the loop of the stale sweep: scanned = requeued, refused empty |
| OutboxRuntime.OutboxRuntime.GiveUpOne | apps/backend/app/boundary/ingress_dispatch_outbox.py:428-450 | a row that was exhausted when listed is claimed by the reconciler and dead-lettered as it is now, if it is still pending and due; else nothing happens |
| OutboxRuntime.OutboxRuntime.DeadLetterExhaustedPending | apps/backend/app/boundary/ingress_dispatch_outbox.py:408-454 | in columns: the page has the PENDING rows of the tenant that are due, as many as the limit allows; those out of attempts or over age end DEAD_LETTERED and are reported in order, all others are unchanged, and no exhausted one is left when the due rows number at most the limit |
| OutboxRuntime.OutboxRuntime.GiveUpPage | apps/backend/app/boundary/ingress_dispatch_outbox.py:427-454 | the loop of the dead-letter sweep |
| OutboxRuntime.StalePage | apps/backend/app/boundary/ingress_dispatch_outbox.py:375-382 | the page of the stale sweep in columns: status, claim time and tenant, and its length |
| OutboxRuntime.NoStaleLeft | apps/backend/app/boundary/ingress_dispatch_outbox.py:364-406 | when the limit covers the rows with these columns, none is left |
| OutboxRuntime.DuePage | apps/backend/app/boundary/ingress_dispatch_outbox.py:420-427 | the page of the dead-letter sweep in columns: status, due time and tenant, and its length |
| OutboxRuntime.NoExhaustedLeft | apps/backend/app/boundary/ingress_dispatch_outbox.py:408-454 | when the limit covers the due rows, none that is out of attempts or over age is left |
| OutboxRuntime.FreedInColumns | apps/backend/app/boundary/ingress_dispatch_outbox.py:386-406 | the columns of the freed rows, the other rows, and the report |
| OutboxRuntime.GivenUpInColumns | apps/backend/app/boundary/ingress_dispatch_outbox.py:427-450 | the columns of the rows given up, and the other rows |
| OutboxRuntime.GivenUpReport | apps/backend/app/boundary/ingress_dispatch_outbox.py:427-454 | the report lists the exhausted rows of the page, each once, in page order, as they are now |
| OutboxRuntime.SweptRows | apps/backend/app/boundary/ingress_dispatch_outbox.py:364-454 | a freed row keeps its attempts and is claimable at once; a given-up row is DEAD_LETTERED with one more attempt; both are well formed |
| Diagnostic.WindowsHoldRecorded | apps/backend/app/agents/runtime/quota_runtime.py:284-316 | the window of a minute holds the charges whose write went through in it, and exists iff there are tokens in it |
| Diagnostic.OneMoreCharge | apps/backend/app/agents/runtime/quota_runtime.py:284-316 | a charge adds its tokens to the window of its minute and changes no other; a failed write or a charge of no tokens changes none |
| Diagnostic.OneMinuteHoldsAll | apps/backend/app/agents/runtime/quota_runtime.py:284-316 | when all writes go through within one minute, its window holds the sum of the charges |
| Diagnostic.FoundExactly | apps/backend/app/cognition/diagnostic_runtime.py:566-615 | a candidate is found iff the completion is sound, or its first correction is, or it does not parse, the first correction drifts and the second is sound |
| Diagnostic.CallsExactly | apps/backend/app/cognition/diagnostic_runtime.py:566-615 | no corrective call for a sound completion, one unless the completion does not parse and the first correction drifts, then two; the search ends with the last completion that parsed |
| Diagnostic.ErrorTellsFault | apps/backend/app/cognition/diagnostic_runtime.py:566-615 | otherwise the error says what is wrong with the last answer: provider error, invalid JSON, or drift |
| Diagnostic.AcceptedExactly | apps/backend/app/cognition/diagnostic_runtime.py:551-713 | a completion is accepted iff a candidate is found, the audit is written, governance approves, the usage is written and the result can be assembled |
| Diagnostic.AcceptanceFailsClosed | apps/backend/app/cognition/diagnostic_runtime.py:551-713 | a result is that of one completion which parsed, was sound, audited, approved and had its ACCEPTED usage saved, in that order, with its own summary and validated category |
| Diagnostic.EveryFailureIsSavedOnce | apps/backend/app/cognition/diagnostic_runtime.py:714-835 | every other exit attempts exactly one failure save, last and under the usage id: FAILED for a persistence or unexpected error, REJECTED for a provider error, drift or a governance rejection; the caller sees the cause, an unexpected one as a provider error, or the failure of the save |
| Diagnostic.FirstFailureIsSaved | apps/backend/app/cognition/diagnostic_runtime.py:313-327 | a failed first call attempts one save without a completion, REJECTED for a provider error and FAILED for any other, and surfaces as a provider error or the failure of the save |
| Diagnostic.TicketFailsClosed | apps/backend/app/cognition/diagnostic_runtime.py:286-331 | the same over a whole ticket |
| Diagnostic.CategoryIsKnown | apps/backend/app/cognition/diagnostic_runtime.py:1705-1716 | the category of a result is the one given when it is one of the tenant, else unclassified |
| Diagnostic.DiagnosticRuntime.CompleteAtBudget | apps/backend/app/cognition/diagnostic_runtime.py:963-987 | one provider call: its completion is received, its error passed on |
| Diagnostic.DiagnosticRuntime.CompleteLlm | apps/backend/app/cognition/diagnostic_runtime.py:915-961 | a whole answer, or a cut-off one without a larger budget, is returned after one call at the base budget; a cut-off one otherwise takes exactly one more call at the larger budget, whose reply or error is the answer; the discarded completion is charged, the returned one is not yet |
| Diagnostic.DiagnosticRuntime.CompleteAndCharge | apps/backend/app/cognition/diagnostic_runtime.py:532-549 | every completion received is charged exactly once |
| Diagnostic.DiagnosticRuntime.SaveCognitionAudit | apps/backend/app/cognition/diagnostic_runtime.py:1117-1167 | one audit record, or a persistence error |
| Diagnostic.DiagnosticRuntime.SaveUsage | apps/backend/app/cognition/diagnostic_runtime.py:1103-1115 | one usage record, or a persistence error |
| Diagnostic.DiagnosticRuntime.GovernOutput | apps/backend/app/cognition/diagnostic_runtime.py:989-1101 | passes iff the envelope is ok with an ALLOW decision (or an existing decision is allowed and found); else a persistence error, a failed crisis event, or a governance rejection |
| Diagnostic.DiagnosticRuntime.AttemptSelfCorrection | apps/backend/app/cognition/diagnostic_runtime.py:837-898 | one corrective call, charged, parsed and checked |
| Diagnostic.DiagnosticRuntime.FindCandidate | apps/backend/app/cognition/diagnostic_runtime.py:566-615 | the search with its exact result, completion and number of calls; all completions are charged |
| Diagnostic.DiagnosticRuntime.AcceptCandidate | apps/backend/app/cognition/diagnostic_runtime.py:617-713 | audit, then governance, then ACCEPTED usage, each only when the one before went through, with the error of the one that failed; a result with the summary and validated category of the candidate iff all go through |
| Diagnostic.DiagnosticRuntime.TryAccept | apps/backend/app/cognition/diagnostic_runtime.py:566-713 | search and acceptance before the exception handlers, exactly |
| Diagnostic.DiagnosticRuntime.PersistReasoningFailure | apps/backend/app/cognition/diagnostic_runtime.py:797-835 | one usage save with the given status, and the error the caller sees |
| Diagnostic.DiagnosticRuntime.PersistReasoningResult | apps/backend/app/cognition/diagnostic_runtime.py:551-795 | the exact outcome for every behaviour of the surroundings, and that it is closed: a full acceptance, or one failure save |
| Diagnostic.DiagnosticRuntime.FailFirstCall | apps/backend/app/cognition/diagnostic_runtime.py:313-327 | a failed first call: REJECTED for a provider error, FAILED and wrapped for any other |
| Diagnostic.DiagnosticRuntime.ReasonAboutTicket | apps/backend/app/cognition/diagnostic_runtime.py:286-331 | at most six completions are received, each is charged its own tokens once, and the outcome is exact and closed |
| Diagnostic.SoundExactly | apps/backend/app/cognition/diagnostic_runtime.py:1367-1396 | a completion is sound iff it parses, its summary, category and reasoning name all governance terms of the ticket, and they name none that is neither in the ticket nor in the context nor authorized |
| Diagnostic.AcceptedOutputKeepsTerms | apps/backend/app/cognition/diagnostic_runtime.py:1367-1396 | an accepted output names every governance term of the ticket and none that is not allowed, under a plain ALLOW |
| Semantic.TokensAreMaximalRuns | apps/backend/app/cognition/semantic.py:29 | the tokens of a text are exactly its maximal runs of word characters |
| Semantic.TokensOfJoined | apps/backend/app/cognition/semantic.py:29 | a separator keeps the tokens of its two sides apart |
| Semantic.TermsExactly | apps/backend/app/cognition/semantic.py:109-111 | a word is a term of a text iff it is in the vocabulary and a maximal run of the case-folded text, for any case folding |
| Semantic.TermsIgnoreCase | apps/backend/app/cognition/semantic.py:109-111 | texts that differ in capital and small letters only have the same terms |
| Semantic.CapitalsAreNamed | apps/backend/app/cognition/semantic.py:109-111 | RMA names the term rma |
| Semantic.TermsOfLines | apps/backend/app/cognition/semantic.py:109-111 | terms of texts joined by a newline are the union of their terms, for any case folding that keeps word characters and newlines |
| Semantic.TermsOfParagraphs | apps/backend/app/cognition/semantic.py:109-111 | the same for two newlines |
| Semantic.ContextItemTerms | apps/backend/app/cognition/diagnostic_runtime.py:1836-1844 | quoting a chunk between its markers adds no terms |
| Semantic.ContextTerms | apps/backend/app/cognition/diagnostic_runtime.py:1836-1844 | the context has exactly the terms of the retrieved chunks |
| Semantic.GateIsExact | apps/backend/app/cognition/semantic.py:75-106 | a candidate is valid iff ticket terms <= terms of summary, category and reasoning <= terms of ticket and context and authorized governance terms; the detail names exactly what is missing and what is introduced |
| Semantic.UngroundedGateIsExact | apps/backend/app/cognition/semantic.py:45-106 | without a grounding text, the terms of the canonical text and the authorized ones are allowed |
| Semantic.SummaryFor | apps/backend/app/cognition/diagnostic_runtime.py:1431-1475 | for every set of governance terms there is a summary of at most 1500 characters that names exactly them |
| Semantic.RewriteIsAchievable | apps/backend/app/cognition/diagnostic_runtime.py:1367-1396 | the requested rewrite can be given iff the category names only allowed terms; then naming the terms of the ticket passes |
| Semantic.GateCanAlwaysBePassed | apps/backend/app/cognition/diagnostic_runtime.py:1701-1702 | the category unclassified is always offered and names no term, so for every ticket there is an output that passes |
| Vision.SliceLength | apps/backend/app/cognition/diagnostic_runtime.py:452 | which ids are among the first ones, also for a negative maximum |
| Vision.SliceInNumbers | apps/backend/app/cognition/diagnostic_runtime.py:452 | how many ids are taken for a maximum that is large, small, negative or very negative |
| Vision.LoadAttachmentBlocks | apps/backend/app/cognition/diagnostic_runtime.py:432-482 | the blocks are the greedy selection among the first ids, and fit under the cap |
| Vision.EligibleExactly | apps/backend/app/cognition/diagnostic_runtime.py:484-530 | an id stands for a block iff it reads an attachment with these contents, type and digest, and it is a JPEG or PNG within the size or a PDF whose pages can be counted and are within the limit |
| Vision.OnlyStoredIsShown | apps/backend/app/cognition/diagnostic_runtime.py:484-530 | each block shows a stored attachment read through one of the first ids, unchanged, within the limits of its kind |
| Vision.GreedyFits | apps/backend/app/cognition/diagnostic_runtime.py:471-479 | what is shown stays under the cap unless nothing is |
| Vision.WeightIsTotal | apps/backend/app/cognition/diagnostic_runtime.py:471-479 | the running total is the bytes of the blocks |
| Vision.NothingCanBeAdded | apps/backend/app/cognition/diagnostic_runtime.py:471-479 | no eligible attachment that was left out could be added |
| Vision.EarlierAttachmentsWin | apps/backend/app/cognition/diagnostic_runtime.py:452-481 | against every other choice under the cap, the first attachment on which they differ is shown |
| Vision.GreedyIsUnique | apps/backend/app/cognition/diagnostic_runtime.py:452-481 | there is one greedy selection |
| MediaFetch.SeedInjectiveWithinTenant | apps/backend/app/boundary/whatsapp_media_fetch.py:37-41 | within a tenant different keys have different fetch ids |
| MediaFetch.SeedInjective | apps/backend/app/boundary/whatsapp_media_fetch.py:37-41 | for tenant ids without a bar, fetch ids are equal iff the natural keys are |
| MediaFetch.OneRowPerKey | apps/backend/app/boundary/db/models.py:307-312 | at most one row per natural key |
| MediaFetch.StepKeepsConsistent | apps/backend/app/boundary/whatsapp_media_fetch.py:132-294 | every operation of either store keeps each row under the id of its key, with attachment, error and resolution time matching its status |
| MediaFetch.AlwaysConsistent | apps/backend/app/boundary/whatsapp_media_fetch.py:132-447 | over every run of either store |
| MediaFetch.StoresAgreeExactly | apps/backend/app/boundary/whatsapp_media_fetch.py:132-447 | the two stores answer an operation alike iff the columns can hold it and its fetch id is not taken by another key |
| MediaFetch.RunsAgreeExactly | apps/backend/app/boundary/whatsapp_media_fetch.py:132-447 | whole runs get the same responses iff each request is admissible, and then leave the same rows |
| MediaFetch.StoresAgree | apps/backend/app/boundary/whatsapp_media_fetch.py:132-447 | with tenant ids without a bar every sequence of operations gives the same responses and contents in both stores |
| MediaFetch.TenantWithBarCollides | apps/backend/app/boundary/whatsapp_media_fetch.py:340-370 | with a bar in a tenant id two keys can share an id: the table refuses, the store in memory overwrites (concrete keys) |
| MediaFetch.CreatedOnce | apps/backend/app/boundary/whatsapp_media_fetch.py:132-173 | creating a key again gives back its row unchanged; a new row is pending, has the seed of its key, its time and no resolution, and is readable |
| MediaFetch.WriteInColumns | apps/backend/app/boundary/whatsapp_media_fetch.py:216-294 | a write changes a pending row of its tenant and nothing else: one more attempt; STORED with that attachment and no error; or FAILED with the first 2000 characters of the error; at the given time or now |
| MediaFetch.FirstResolutionWins | apps/backend/app/boundary/whatsapp_media_fetch.py:239-294 | the first resolution of a pending row wins, and other tenants see nothing |
| MediaFetch.ResolvedRowsAreFrozen | apps/backend/app/boundary/whatsapp_media_fetch.py:216-294 | in the table no run removes a row or changes a resolved one |
| MediaFetch.FrozenInMemoryExactly | apps/backend/app/boundary/whatsapp_media_fetch.py:340-447 | in memory a row stays, and a resolved one unchanged, throughout a run iff no other key is created under its id |
| MediaFetch.ResolvedRowsAreFrozenInMemory | apps/backend/app/boundary/whatsapp_media_fetch.py:395-447 | so it does when tenant ids have no bar |
| MediaFetch.InMemoryMediaFetch.CreatePending | apps/backend/app/boundary/whatsapp_media_fetch.py:340-370 | the linear scan finds the natural key or the row is added |
| MediaFetch.InMemoryMediaFetch.Get | apps/backend/app/boundary/whatsapp_media_fetch.py:372-381 | the row of its own tenant |
| MediaFetch.InMemoryMediaFetch.Write | apps/backend/app/boundary/whatsapp_media_fetch.py:395-447 | increments attempts or resolves, on pending rows only |
| MediaFetch.PostgresMediaFetch.CreatePending | apps/backend/app/boundary/whatsapp_media_fetch.py:132-173 | inserts, or on conflict reads the row with the natural key, which is always there; rejects exactly what the column widths do not hold |
| MediaFetch.PostgresMediaFetch.GetByNaturalKey | apps/backend/app/boundary/whatsapp_media_fetch.py:175-188 | the one row with the key |
| MediaFetch.PostgresMediaFetch.Get | apps/backend/app/boundary/whatsapp_media_fetch.py:190-201 | the row of its own tenant |
| MediaFetch.PostgresMediaFetch.Write | apps/backend/app/boundary/whatsapp_media_fetch.py:216-294 | the status-guarded update, read back when it hit one row |
| MediaFetch.PostgresMediaFetch.Update | apps/backend/app/boundary/whatsapp_media_fetch.py:216-294 | one status-guarded statement and its row count |
| Attachments.ConcatJoins | apps/backend/app/attachments/streaming.py:33-43 | the buffer holds the chunks in their order |
| Attachments.ReadBounded | apps/backend/app/attachments/streaming.py:33-43 | returns the concatenated chunks iff no prefix exceeds the cap; else consumes the shortest prefix over it and reports its exact length |
| Attachments.ReadsWithinCap | apps/backend/app/attachments/streaming.py:33-43 | for a source with chunks, that is iff its total is within the cap |
| Attachments.OverrunIsSmall | apps/backend/app/attachments/streaming.py:16-31 | an abort has buffered at most one chunk more than the cap |
| Sniffing.SniffExactly | apps/backend/app/tenant/file_ingestion.py:45-81 | which first bytes are accepted as PDF, DOCX, JPEG, PNG or text, iff, and that MZ is refused as executable whatever follows |
| Sniffing.OneSignature | apps/backend/app/tenant/file_ingestion.py:8-14 | no content begins with two of the signatures, so that their order does not matter |
| Attachments.StorageKeysDiffer | apps/backend/app/attachments/storage_service.py:126 | storage keys are equal iff tenant and attachment are, whatever the tenant is called |
| Attachments.StoredInOrder | apps/backend/app/attachments/storage_service.py:118-141 | writing blob and row, or losing the row after the blob, keeps rows and blobs in order |
| Attachments.RefusedInOrder | apps/backend/app/attachments/repository.py:99-129 | a rejected row keeps them in order and has no blob |
| Attachments.AttachmentStore.InsertRejected | apps/backend/app/attachments/repository.py:99-129 | a rejected row without key, type or blob |
| Attachments.AttachmentStore.InsertStored | apps/backend/app/attachments/repository.py:64-97 | a stored row with its key |
| Attachments.AttachmentStore.StoreContent | apps/backend/app/attachments/storage_service.py:101-141 | sniff, encrypt, put, row: stored iff the bytes are of an allowed type, which is recorded with the key tenant/id; else rejected with the reason |
| Attachments.AttachmentStore.Store | apps/backend/app/attachments/storage_service.py:71-141 | stored iff the total is within the cap and the bytes are of an allowed type, which is recorded; exactly then the encrypted blob is written under tenant/id; the outcome is that of its own chunks and tenant; every stored row has its blob, no rejected one has |
| Attachments.AttachmentStore.Get | apps/backend/app/attachments/repository.py:141-162 | under the owning tenant exactly the concatenated chunks, else not found |
| Attachments.AttachmentStore.StoreAll | apps/backend/app/attachments/storage_service.py:71-141 | over any sequence of stores with fresh ids each attachment ends as its own input says |
| StableSort.StableSortUnique | packages/shared/src/deterministic.ts:12-24 | the stable sort of a sequence by a strict order is one sequence |
| StableSort.StableSortRearranges | packages/shared/src/deterministic.ts:16-24 | it has the same elements with the same multiplicities |
| StableSort.NoDisagreement | packages/shared/src/deterministic.ts:16-24 | one list cannot be sorted by two orders that disagree about two of its items |
| StableSort.SortedSlots | packages/shared/src/deterministic.ts:18-23 | sorting by (key, index) is a stable sort by key |
| StableSort.StableSortBy | packages/shared/src/deterministic.ts:16-24 | the sort returns the stable sort by key |
| StableSort.SortInPlace | packages/shared/src/deterministic.ts:18-22 | the array is sorted in place by the comparator |
| TraceOrdering.PaddedOrder | packages/observability/src/ordering.ts:23 | padded sequences of one width compare as their numbers |
| TraceOrdering.KeyRefinesTuple | packages/observability/src/ordering.ts:16-24 | string keys compare as (observedAt, sequence, kind) for comparable timestamps and equal widths |
| TraceOrdering.ShorterMomentSortsLast | packages/observability/src/ordering.ts:21-23 | a timestamp that begins another one sorts after it by the key |
| TraceOrdering.KeysAgreeExactly | packages/observability/src/ordering.ts:16-24 | on timestamp text and sequences below 10^10 the key orders a bundle like the triple iff no timestamp properly begins another |
| TraceOrdering.EqualLengthMoments | packages/observability/src/ordering.ts:16-24 | equal-length timestamps satisfy that condition |
| TraceOrdering.SortKeyRefinement | packages/observability/src/ordering.ts:16-24 | then key order and triple order have the same stable sorts |
| TraceOrdering.RenderedExactly | packages/observability/src/ordering.ts:16-24 | the rendered list is the triple sort iff no timestamp in the bundle properly begins another |
| TraceOrdering.DocumentedExactly | packages/observability/src/ordering.ts:4-24 | the rendered list is in the documented order iff, besides, ties in timestamp and sequence were given in the order of their kinds |
| TraceOrdering.KindBreaksTies | packages/observability/src/ordering.ts:4-24 | two tied nodes given against the order of their kinds are exchanged (concrete nodes) |
| TraceOrdering.ChronologicalExactly | packages/observability/src/ordering.ts:16-24 | in terms of observedAt, sequence and kind, with missing ones as the empty text and 0: the rendered list is chronological iff no timestamp properly begins another |
| TraceOrdering.RenderableTraceNodes | packages/observability/src/ordering.ts:16-24 | the rendered list is a rearrangement, and the one stable sort by the triple, and chronological, iff the bundle is prefix free |
| TraceOrdering.MissingMomentRendersLast | packages/observability/src/ordering.ts:21 | a node without observedAt is rendered after all nodes that have one |
| TopologyLayout.LayoutTopology | packages/topology/src/layout.ts:50-95 | the nodes by row, label and id, each with its own id and data, at x of its rank in its row and y of its kind, with 240, 140 and 0 unless given; the edges by kind, source, target and id, sorted stably |
| TopologyLayout.DrawnInNumbers | packages/topology/src/layout.ts:28-77 | supervisors in the top row, agents and broadcasts in the next, others below; columns count the nodes of the row in front |
| TopologyLayout.PlaceInRows | packages/topology/src/layout.ts:64-77 | the row counters give each node the column of its rank in its row |
| TopologyLayout.ColumnsIncrease | packages/topology/src/layout.ts:64-77 | later in a row means further right |
| TopologyLayout.ColumnsAreDense | packages/topology/src/layout.ts:64-77 | the columns in use in a row are exactly 0 to k - 1 |
| TopologyLayout.CountRearranged | packages/topology/src/layout.ts:64-77 | how many nodes a row has does not depend on their order |
| TopologyLayout.OverlapExactly | packages/topology/src/layout.ts:59-77 | for all measures, however they are rounded, two nodes of a layout share a position iff two columns that the nodes of one row need have one x coordinate, or two rows in use have one y coordinate |
| TopologyLayout.OverlapWithoutRounding | packages/topology/src/layout.ts:59-77 | so when no coordinate is rounded, two nodes share a position iff columns have no width and a row holds two nodes, or rows have no height and two rows are in use |
| TopologyLayout.IntegerGridsAreExact | packages/topology/src/layout.ts:54-57 | integer measures whose coordinates stay within 2^53 are exact |
| TopologyLayout.DefaultGridIsExact | packages/topology/src/layout.ts:54-57 | with the default measures 10^13 columns are exact |
| TopologyLayout.RoundingCanOverlap | packages/topology/src/layout.ts:71-74 | with an origin of 10^17 and columns of width 1 the first two agents share a position (concrete layout) |
| TopologyLayout.RowsByIdExactly | packages/topology/src/layout.ts:45-62 | each row is in id order, as documented, iff for nodes of one row label and id (or else the input) put them in the order of their ids |
| TopologyLayout.LabelsComeFirst | packages/topology/src/layout.ts:45-62 | agent 2 with label a stands before agent 1 with label b (concrete nodes) |
| TopologyLayout.LayoutIgnoresInputOrder | packages/topology/src/layout.ts:38-62 | with distinct keys every permutation of the input gives the same output |
| TopologyLayout.EqualKeysKeepOrder | packages/topology/src/layout.ts:59-62 | nodes with equal keys keep their input order |
| TopologyLayout.EqualKeysExposeInputOrder | packages/topology/src/layout.ts:59-62 | exchanging two distinct nodes with one key changes the output |
| TopologyLayout.SharedKeyExactly | packages/topology/src/layout.ts:61 | nodes with different ids share a key iff they share a row and, for some x, one id is x, a colon and the other id, while the other label is the first label, a colon and x |
| TopologyLayout.ColonFreeIdsGiveDistinctKeys | packages/topology/src/layout.ts:61 | node ids without a colon make keys distinct |
| TopologyLayout.KeysCanCollide | packages/topology/src/layout.ts:61 | with colons different ids can share a key (concrete nodes) |
| PngText.FontGlyphsFit | apps/backend/scripts/pilot_walk_scenarios.py:53-63 | every glyph has seven rows of five cells |
| PngText.FontIsLegible | apps/backend/scripts/pilot_walk_scenarios.py:53-63 | no two characters share a glyph |
| PngText.GlyphColumns | apps/backend/scripts/pilot_walk_scenarios.py:70-76 | with a margin, glyph cells are in bounds, and no column belongs to two glyphs |
| PngText.MarginLands | apps/backend/scripts/pilot_walk_scenarios.py:73-78 | so no write misses the grid |
| PngText.NegativeMarginCutsOff | apps/backend/scripts/pilot_walk_scenarios.py:73-78 | with a negative margin a glyph with ink in its last row makes the renderer fail |
| PngText.InkInNumbers | apps/backend/scripts/pilot_walk_scenarios.py:69-78 | cell (x, y) has ink iff some # in row r and column c of glyph i has margin + 6i + c and margin + r denote it, with negative indices from the end |
| PngText.LandsInNumbers | apps/backend/scripts/pilot_walk_scenarios.py:69-78 | no write misses the grid iff all these indices are within plus or minus its sides |
| PngText.InkShowsGlyph | apps/backend/scripts/pilot_walk_scenarios.py:73-78 | the grid shows every cell of every glyph |
| PngText.InkIsLegible | apps/backend/scripts/pilot_walk_scenarios.py:73-78 | with a margin, different rows of glyphs leave different ink |
| PngText.DrawRow | apps/backend/scripts/pilot_walk_scenarios.py:76-78 | one glyph row blackens exactly its cells, with negative indices counted from the end, unless one is out of range |
| PngText.DrawGlyph | apps/backend/scripts/pilot_walk_scenarios.py:75-78 | the inner loops blacken exactly the cells of one glyph, or fail iff one is out of range |
| PngText.DrawText | apps/backend/scripts/pilot_walk_scenarios.py:69-78 | the grid is black exactly where there is ink; drawing fails iff some ink misses the grid |
| PngRaster.RepeatAt | apps/backend/scripts/pilot_walk_scenarios.py:86-89 | where the bytes of a repeated block are |
| PngRaster.PixelsAt | apps/backend/scripts/pilot_walk_scenarios.py:83-86 | where the channels of a cell are within a scanline |
| PngRaster.ScanlinesAt | apps/backend/scripts/pilot_walk_scenarios.py:82-89 | where the bytes of a scanline are within the raw data |
| PngRaster.PixelOfCell | apps/backend/scripts/pilot_walk_scenarios.py:79-89 | pixel (X, Y) is (0, 0, 0) when cell (X / scale, Y / scale) is black and (255, 255, 255) otherwise |
| PngRaster.FilterOfLine | apps/backend/scripts/pilot_walk_scenarios.py:87-89 | every scanline starts with filter byte 0 |
| PngRaster.RasterLength | apps/backend/scripts/pilot_walk_scenarios.py:79-89 | the raw data has exactly height * (1 + 3 * width) bytes |
| PngText.RenderRow | apps/backend/scripts/pilot_walk_scenarios.py:83-86 | the scanline template of one grid row |
| PngText.AppendLines | apps/backend/scripts/pilot_walk_scenarios.py:87-89 | the template is appended as often as the scale says, each time after a filter byte |
| PngText.RenderScanlines | apps/backend/scripts/pilot_walk_scenarios.py:81-89 | the loops over rows, cells and scale build those scanlines |
| PngText.GlyphsOfText | apps/backend/scripts/pilot_walk_scenarios.py:68 | every character is looked up, and the first without a glyph is reported |
| PngText.RenderTextPng | apps/backend/scripts/pilot_walk_scenarios.py:66-106 | the file, or the lookup, index or packing error, for every text, scale and margin |
| PngText.InkOfPixel | apps/backend/scripts/pilot_walk_scenarios.py:73-89 | a pixel is (0, 0, 0) iff the cell it enlarges has ink, else (255, 255, 255) |
| PngText.PictureIsLegible | apps/backend/scripts/pilot_walk_scenarios.py:66-106 | rows of glyphs of one length with the same picture leave the same ink |
| PngText.RasterShows | apps/backend/scripts/pilot_walk_scenarios.py:66-89 | the raster is the picture of the text |
| PngText.RenderedFileShowsText | apps/backend/scripts/pilot_walk_scenarios.py:66-106 | the emitted file reads back as a picture of the text, black on white pixel by pixel, as long as the grid has rows |
| PngText.FileInNumbers | apps/backend/scripts/pilot_walk_scenarios.py:66-106 | with a margin, the file is (2 * margin + 6n - 1) * scale by (2 * margin + 7) * scale pixels, and pixel (X, Y) is black iff X / scale is margin + 6i + c and Y / scale is margin + r for a # of glyph i, and white otherwise |
| PngText.ValidExactly | apps/backend/scripts/pilot_walk_scenarios.py:66-106 | a valid file is emitted iff all ink is on the grid, the scale is at least 1, the grid has a column and a row, and width, height and data are at most 2^31 - 1 |
| PngText.ScaleZeroIsNotValid | apps/backend/scripts/pilot_walk_scenarios.py:66-106 | at scale 0 a file of size 0 x 0 is emitted for every text, and it is not valid |
| PngText.SameFileExactly | apps/backend/scripts/pilot_walk_scenarios.py:66-106 | for all margins, two rows of glyphs give one file iff they have one length and leave the same ink, or the scale is 0; for margins from 0 the same ink means the same glyphs |
| PngText.WhatFits | apps/backend/scripts/pilot_walk_scenarios.py:53-78 | with a negative margin only blanks and dashes can be drawn, a dash only in a grid with rows and in front of another character |
| PngText.InkShowsDash | apps/backend/scripts/pilot_walk_scenarios.py:73-78 | there the last column of each dash is black iff the dash is there, even when the first one wraps around |
| PngText.PrintedInkIsLegible | apps/backend/scripts/pilot_walk_scenarios.py:53-78 | so for all margins, characters of the font that can be drawn and leave the same ink are the same |
| PngText.FilesTellTextsApart | apps/backend/scripts/pilot_walk_scenarios.py:66-106 | for all margins and scales, two texts give one file iff they are the same in upper case or the scale is 0 |
| PngFile.UnpackPacked | apps/backend/scripts/pilot_walk_scenarios.py:92-100 | a packed 32-bit number unpacks to itself, most significant byte first |
| PngFile.FieldsOfEncoded | apps/backend/scripts/pilot_walk_scenarios.py:92-98 | the fields of an encoded chunk in front of other bytes; the checksum is the CRC of tag and data |
| PngFile.ParseEncoded | apps/backend/scripts/pilot_walk_scenarios.py:92-98 | any sequence of chunks parses back from its encoding |
| PngFile.ParseFile | apps/backend/scripts/pilot_walk_scenarios.py:100-106 | the emitted bytes parse as signature, IHDR, IDAT, IEND |
| PngFile.FixedBytes | apps/backend/scripts/pilot_walk_scenarios.py:100-106 | the signature, tags, lengths, sizes and format bytes of every emitted file, where they stand |
| PngFile.DecodeEncoded | apps/backend/scripts/pilot_walk_scenarios.py:90-106 | a file decodes to the size and the raw data it was made from |
| PngFile.ValidEncodedExactly | apps/backend/scripts/pilot_walk_scenarios.py:89-106 | when an encoded picture is a valid file (sizes, chunk lengths, complete lines with defined filters) |

## Left out

- SQL, sessions, transactions, row locks, S3, Redis, Celery and HTTP: each statement is one atomic step; row-level security and foreign keys (the cascade when an ingress is deleted, unknown tenants) are not modelled.
- The real UUID-5, SHA-256, CRC, zlib and encryption, the JSON parser of completions, and base64.
- `bulk_create_outbox_for_ingress`, which repeats the single creation.
- The derivation of an outbox id from its ingress id: the id is a parameter, and a taken one is an error.
- How metadata and payload entries are looked up, stripped and lower-cased for the channel candidates: the cleaned candidates are the input.
- The runtime's methods run one at a time; what other processes do between the statements of a sweep or a claim is the subject of `OutboxProtocol`.
- OutboxRuntime.OutboxRuntime.Reschedule: `mark_dispatched` and `dead_letter` of the runtime only pass their arguments on to the persistence methods and have no member of their own.
- The diagnostic runtime before its first call (snapshot, retrieval, prompts), metadata, costs, log output, the fallbacks for older signatures, and cancellation of a running task.
- Diagnostic.DiagnosticRuntime.GovernOutput: with an existing decision allowed, the source returns the derived id without reading the stored decision; the acceptance theorem for a whole ticket is for the default, where that is off.
- Field extraction and its schema validation; a failure of it is the arbitrary failure to assemble the result.
- The order of terms in the result tuples of the semantic check, and Unicode case folding beyond the assumptions.
- The quota's requests, limits and expiry of windows.
- Surrogates in JavaScript string comparison, infinite and undefined layout measures, and numbers that are not non-negative integers as sequences.
- The listing functions of the media-fetch stores: `list_by_ingress` has no order in the table, and `list_stale_pending` leaves ties open.
- The attachment columns that are passed through (channel, message, conversation, declared type, retention).
- The React, SDK and type packages, the DTO mirrors, and the other scripts.
