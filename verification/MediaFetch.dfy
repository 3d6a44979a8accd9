/**
 The ledger of WhatsApp media fetches: one row per (tenant, ingress, media), pending until it is
 resolved as stored or failed. Two stores keep it, one in memory and one in a database table; both
 are stated against functions on their rows, and those functions are compared over whole runs.
 */
module MediaFetch {
  import opened Wrappers
  import opened Text
  import opened Outbox

  // ---------- Identity ----------

  datatype NaturalKey = NaturalKey(tenantId: string, ingressId: Uuid, mediaId: string)

  /** A fetch id: a version-5 UUID, represented by the seed it is hashed from, or any other UUID. */
  datatype FetchId = FromSeed(seed: string) | Foreign(id: Uuid)

  function FetchSeed(key: NaturalKey): string {
    key.tenantId + "|" + key.ingressId.text + "|" + key.mediaId
  }

  function DeriveFetchId(key: NaturalKey): FetchId {
    FromSeed(FetchSeed(key))
  }

  /** Under one tenant, different keys have different ids, whatever the names contain. */
  lemma SeedInjectiveWithinTenant(tenant: string, i: Uuid, m: string, i': Uuid, m': string)
    ensures DeriveFetchId(NaturalKey(tenant, i, m)) == DeriveFetchId(NaturalKey(tenant, i', m'))
      <==> i == i' && m == m'
  {
    var s := FetchSeed(NaturalKey(tenant, i, m));
    var s' := FetchSeed(NaturalKey(tenant, i', m'));
    var n := |tenant|;
    assert s[n + 1..n + 37] == i.text && s'[n + 1..n + 37] == i'.text;
    assert s[n + 38..] == m && s'[n + 38..] == m';
  }

  /** Tenant ids without '|' keep all ids apart; media ids may contain anything. */
  lemma SeedInjective(a: NaturalKey, b: NaturalKey)
    requires BarFree(a.tenantId) && BarFree(b.tenantId)
    ensures DeriveFetchId(a) == DeriveFetchId(b) <==> a == b
  {
    var (restA, restB) := (a.ingressId.text + "|" + a.mediaId, b.ingressId.text + "|" + b.mediaId);
    assert FetchSeed(a) == a.tenantId + "|" + restA && FetchSeed(b) == b.tenantId + "|" + restB;
    FirstBarUnique(a.tenantId, restA);
    FirstBarUnique(b.tenantId, restB);
    if FetchSeed(a) == FetchSeed(b) {
      assert FetchSeed(a)[..|a.tenantId|] == a.tenantId;
      assert FetchSeed(b)[..|b.tenantId|] == b.tenantId;
      SeedInjectiveWithinTenant(a.tenantId, a.ingressId, a.mediaId, b.ingressId, b.mediaId);
    }
  }

  // ---------- Records and requests ----------

  datatype Status = Pending | Stored | Failed

  datatype Record = Record(
    fetchId: FetchId, tenantId: string, ingressId: Uuid, externalMessageId: string, mediaId: string,
    status: Status, createdAt: int, mimeType: Option<string>, attachmentId: Option<Uuid>,
    attemptCount: nat, lastError: Option<string>, resolvedAt: Option<int>)
  {
    predicate IsTerminal() { !status.Pending? }

    function Key(): NaturalKey { NaturalKey(tenantId, ingressId, mediaId) }
  }

  type Rows = map<FetchId, Record>

  datatype Creation = Creation(
    tenantId: string, ingressId: Uuid, externalMessageId: string, mediaId: string,
    mimeType: Option<string>, createdAt: Option<int>)
  {
    function Key(): NaturalKey { NaturalKey(tenantId, ingressId, mediaId) }
  }

  /** The writes of a background task to one row. */
  datatype Change =
    | CountAttempt
    | ResolveStored(attachmentId: Uuid, resolvedAt: Option<int>)
    | ResolveFailed(error: string, resolvedAt: Option<int>)

  datatype Request =
    | CreatePending(creation: Creation)
    | Get(fetchId: FetchId, tenantId: string)
    | Write(fetchId: FetchId, tenantId: string, change: Change)

  datatype Response = Found(record: Record) | Nothing | Rejected(reason: Violation)

  datatype Violation = ColumnCheck | DuplicateFetchId

  const ERROR_WIDTH := 2000
  const HANDLE_WIDTH := 255
  const MIME_WIDTH := 128

  function FirstChars(s: string, n: nat): string {
    if |s| <= n then s else s[..n]
  }

  function OrNow(time: Option<int>, now: int): int {
    if time.Some? then time.value else now
  }

  function NewRecord(c: Creation, now: int): Record {
    Record(DeriveFetchId(c.Key()), c.tenantId, c.ingressId, c.externalMessageId, c.mediaId, Status.Pending,
           OrNow(c.createdAt, now), c.mimeType, None, 0, None, None)
  }

  function Changed(record: Record, change: Change, now: int): Record {
    match change
    case CountAttempt => record.(attemptCount := record.attemptCount + 1)
    case ResolveStored(attachmentId, resolvedAt) =>
      record.(status := Stored, attachmentId := Some(attachmentId), lastError := None,
              resolvedAt := Some(OrNow(resolvedAt, now)))
    case ResolveFailed(error, resolvedAt) =>
      record.(status := Failed, lastError := Some(FirstChars(error, ERROR_WIDTH)),
              resolvedAt := Some(OrNow(resolvedAt, now)))
  }

  // ---------- What each store does to its rows ----------

  predicate Holds(rows: Rows, key: NaturalKey) {
    DeriveFetchId(key) in rows && rows[DeriveFetchId(key)].Key() == key
  }

  /** The id that the key derives is taken by another key. */
  predicate Collides(rows: Rows, key: NaturalKey) {
    DeriveFetchId(key) in rows && rows[DeriveFetchId(key)].Key() != key
  }

  /** The columns accept the values: their widths, and a tenant id that is not empty. */
  predicate Storable(c: Creation) {
    && 0 < |c.tenantId| <= HANDLE_WIDTH
    && |c.externalMessageId| <= HANDLE_WIDTH
    && |c.mediaId| <= HANDLE_WIDTH
    && (c.mimeType.Some? ==> |c.mimeType.value| <= MIME_WIDTH)
  }

  function Read(rows: Rows, fetchId: FetchId, tenantId: string): Response {
    if fetchId in rows && rows[fetchId].tenantId == tenantId then Found(rows[fetchId]) else Nothing
  }

  /** A write applies to a pending row of its tenant, and to nothing else. */
  function Written(rows: Rows, fetchId: FetchId, tenantId: string, change: Change, now: int): (Response, Rows) {
    if fetchId in rows && rows[fetchId].tenantId == tenantId && !rows[fetchId].IsTerminal() then
      var record := Changed(rows[fetchId], change, now);
      (Found(record), rows[fetchId := record])
    else (Nothing, rows)
  }

  function CreatedInMemory(rows: Rows, c: Creation, now: int): (Response, Rows) {
    if Holds(rows, c.Key()) then (Found(rows[DeriveFetchId(c.Key())]), rows)
    else (Found(NewRecord(c, now)), rows[DeriveFetchId(c.Key()) := NewRecord(c, now)])
  }

  function CreatedInTable(rows: Rows, c: Creation, now: int): (Response, Rows) {
    if !Storable(c) then (Rejected(ColumnCheck), rows)
    else if Holds(rows, c.Key()) then (Found(rows[DeriveFetchId(c.Key())]), rows)
    else if DeriveFetchId(c.Key()) in rows then (Rejected(DuplicateFetchId), rows)
    else (Found(NewRecord(c, now)), rows[DeriveFetchId(c.Key()) := NewRecord(c, now)])
  }

  datatype Store = InMemory | InTable

  function Step(store: Store, rows: Rows, request: Request, now: int): (Response, Rows) {
    match request
    case CreatePending(c) => if store.InMemory? then CreatedInMemory(rows, c, now) else CreatedInTable(rows, c, now)
    case Get(fetchId, tenantId) => (Read(rows, fetchId, tenantId), rows)
    case Write(fetchId, tenantId, change) => Written(rows, fetchId, tenantId, change, now)
  }

  // ---------- Invariants over every run ----------

  /** The constraints of the table, and when a row is resolved. */
  ghost predicate WellFormed(record: Record) {
    && (record.attachmentId.Some? <==> record.status.Stored?)
    && (record.resolvedAt.Some? <==> record.IsTerminal())
    && (record.lastError.Some? <==> record.status.Failed?)
    && (record.lastError.Some? ==> |record.lastError.value| <= ERROR_WIDTH)
  }

  /** Every row stands under the id that its natural key derives. */
  ghost predicate Consistent(rows: Rows) {
    forall id :: id in rows ==>
      && rows[id].fetchId == id
      && id == DeriveFetchId(rows[id].Key())
      && WellFormed(rows[id])
  }

  /** There is at most one row per natural key. */
  lemma OneRowPerKey(rows: Rows, id: FetchId, id': FetchId)
    requires Consistent(rows) && id in rows && id' in rows
    ensures rows[id].Key() == rows[id'].Key() <==> id == id'
  {
    assert id == DeriveFetchId(rows[id].Key());
    assert id' == DeriveFetchId(rows[id'].Key());
  }

  lemma StepKeepsConsistent(store: Store, rows: Rows, request: Request, now: int)
    requires Consistent(rows)
    ensures Consistent(Step(store, rows, request, now).1)
  {
    var next := Step(store, rows, request, now).1;
    forall id | id in next
      ensures next[id].fetchId == id && id == DeriveFetchId(next[id].Key()) && WellFormed(next[id])
    {
      match request
      case CreatePending(c) => assert id in rows || next[id] == NewRecord(c, now);
      case Get(_, _) =>
      case Write(fetchId, tenantId, change) => assert id in rows;
    }
  }

  /** A run of requests, each with the time it is made. */
  type Script = seq<(Request, int)>

  function Run(store: Store, rows: Rows, script: Script): (seq<Response>, Rows) {
    if script == [] then ([], rows)
    else
      var (responses, before) := Run(store, rows, script[..|script| - 1]);
      var (response, after) := Step(store, before, script[|script| - 1].0, script[|script| - 1].1);
      (responses + [response], after)
  }

  lemma {:induction false} AlwaysConsistent(store: Store, rows: Rows, script: Script)
    requires Consistent(rows)
    ensures Consistent(Run(store, rows, script).1)
  {
    if script != [] {
      var before := script[..|script| - 1];
      AlwaysConsistent(store, rows, before);
      StepKeepsConsistent(store, Run(store, rows, before).1, script[|script| - 1].0, script[|script| - 1].1);
    }
  }

  // ---------- Agreement of the stores ----------

  /** The table can hold the creation, and no other key has taken its id. */
  predicate Admissible(rows: Rows, request: Request) {
    request.CreatePending? ==> Storable(request.creation) && !Collides(rows, request.creation.Key())
  }

  /** One request: the stores answer alike exactly when it is admissible, and then do the same. */
  lemma StoresAgreeExactly(rows: Rows, request: Request, now: int)
    ensures Step(InMemory, rows, request, now).0 == Step(InTable, rows, request, now).0 <==> Admissible(rows, request)
    ensures Admissible(rows, request) ==> Step(InMemory, rows, request, now) == Step(InTable, rows, request, now)
  {
  }

  /** Each request of the script is admissible when the table gets to it. */
  ghost predicate AllAdmissible(script: Script) {
    script != [] ==>
      var before := script[..|script| - 1];
      AllAdmissible(before) && Admissible(Run(InTable, map[], before).1, script[|script| - 1].0)
  }

  /** Whole runs: the stores give the same responses exactly when every request is admissible. */
  lemma {:induction false} RunsAgreeExactly(script: Script)
    ensures Run(InMemory, map[], script).0 == Run(InTable, map[], script).0 <==> AllAdmissible(script)
    ensures AllAdmissible(script) ==> Run(InMemory, map[], script) == Run(InTable, map[], script)
  {
    if script != [] {
      var (before, last) := (script[..|script| - 1], script[|script| - 1]);
      RunsAgreeExactly(before);
      StoresAgreeExactly(Run(InTable, map[], before).1, last.0, last.1);
      SameButLast(Run(InMemory, map[], before).0, Step(InMemory, Run(InMemory, map[], before).1, last.0, last.1).0,
                  Run(InTable, map[], before).0, Step(InTable, Run(InTable, map[], before).1, last.0, last.1).0);
    }
  }

  lemma SameButLast(a: seq<Response>, x: Response, b: seq<Response>, y: Response)
    ensures a + [x] == b + [y] <==> a == b && x == y
  {
    if a + [x] == b + [y] {
      assert (a + [x])[..|a|] == a && (b + [y])[..|b|] == b;
      assert (a + [x])[|a|] == x && (b + [y])[|b|] == y;
    }
  }

  /** The creation fits its columns and its tenant id has no '|'. */
  predicate Plain(request: Request) {
    request.CreatePending? ==> Storable(request.creation) && BarFree(request.creation.tenantId)
  }

  ghost predicate PlainTenants(rows: Rows) {
    forall id :: id in rows ==> BarFree(rows[id].tenantId)
  }

  lemma PlainIsAdmissible(rows: Rows, request: Request)
    requires Consistent(rows) && PlainTenants(rows) && Plain(request)
    ensures Admissible(rows, request)
  {
    if request.CreatePending? && DeriveFetchId(request.creation.Key()) in rows {
      var id := DeriveFetchId(request.creation.Key());
      assert id == DeriveFetchId(rows[id].Key());
      SeedInjective(rows[id].Key(), request.creation.Key());
    }
  }

  /** Plain requests get the same responses from both stores, and leave the same rows. */
  lemma {:induction false} StoresAgree(script: Script)
    requires forall i :: 0 <= i < |script| ==> Plain(script[i].0)
    ensures Run(InMemory, map[], script) == Run(InTable, map[], script)
    ensures PlainTenants(Run(InTable, map[], script).1) && AllAdmissible(script)
  {
    if script != [] {
      var before := script[..|script| - 1];
      StoresAgree(before);
      AlwaysConsistent(InTable, map[], before);
      PlainIsAdmissible(Run(InTable, map[], before).1, script[|script| - 1].0);
    }
    RunsAgreeExactly(script);
  }

  /**
   With a '|' in a tenant id two keys can share a fetch id. Then the table refuses the second
   creation, while the store in memory overwrites the first tenant's row, even a resolved one.
   */
  lemma TenantWithBarCollides(i: Uuid, j: Uuid, now: int)
    ensures
      var a := NaturalKey("a", i, j.text + "|m");
      var b := NaturalKey("a|" + i.text, j, "m");
      && a != b
      && DeriveFetchId(a) == DeriveFetchId(b)
      && forall record: Record, c: Creation :: record.Key() == a && c.Key() == b && Storable(c) ==>
           var rows := map[DeriveFetchId(a) := record];
           && Step(InTable, rows, CreatePending(c), now) == (Rejected(DuplicateFetchId), rows)
           && Step(InMemory, rows, CreatePending(c), now) ==
                (Found(NewRecord(c, now)), map[DeriveFetchId(b) := NewRecord(c, now)])
  {
    var a := NaturalKey("a", i, j.text + "|m");
    var b := NaturalKey("a|" + i.text, j, "m");
    assert FetchSeed(a) == "a|" + i.text + "|" + j.text + "|m";
    assert FetchSeed(b) == "a|" + i.text + "|" + j.text + "|m";
    forall record: Record, c: Creation | record.Key() == a && c.Key() == b
      ensures map[DeriveFetchId(a) := record][DeriveFetchId(b) := NewRecord(c, now)]
        == map[DeriveFetchId(b) := NewRecord(c, now)]
    {
    }
  }

  // ---------- Requests in sequence ----------

  /**
   Creating a key again gives back the row it has, whatever else the second creation says; a new
   row is pending, has no attempts and can be read under its id by its tenant.
   */
  lemma CreatedOnce(store: Store, rows: Rows, c: Creation, again: Creation, now: int, later: int)
    requires Consistent(rows) && Admissible(rows, CreatePending(c))
    requires Storable(again) && again.Key() == c.Key()
    ensures var (response, after) := Step(store, rows, CreatePending(c), now);
      && response.Found? && response.record.Key() == c.Key()
      && Step(store, after, CreatePending(again), later) == (response, after)
      && Step(store, after, Get(DeriveFetchId(c.Key()), c.tenantId), later) == (response, after)
      && (Holds(rows, c.Key()) ==> after == rows)
      && (!Holds(rows, c.Key()) ==>
            && response.record.status.Pending? && response.record.attemptCount == 0
            && response.record.fetchId == FromSeed(c.tenantId + "|" + c.ingressId.text + "|" + c.mediaId)
            && response.record.externalMessageId == c.externalMessageId
            && response.record.mimeType == c.mimeType
            && response.record.createdAt == (if c.createdAt.Some? then c.createdAt.value else now)
            && response.record.attachmentId.None? && response.record.lastError.None?
            && response.record.resolvedAt.None?
            && after.Keys == rows.Keys + {DeriveFetchId(c.Key())})
  {
  }

  /**
   What a write does, in columns: it applies to a pending row of its tenant and nothing else. An
   attempt adds one; a stored resolution has its attachment and clears the error; a failed one keeps
   the first 2000 characters of its error; and a resolution has the given time or else the present.
   */
  lemma WriteInColumns(store: Store, rows: Rows, id: FetchId, tenant: string, change: Change, now: int)
    ensures
      var (response, after) := Step(store, rows, Write(id, tenant, change), now);
      if id !in rows || rows[id].tenantId != tenant || !rows[id].status.Pending? then
        response == Nothing && after == rows
      else
        && response == Found(after[id]) && after == rows[id := after[id]]
        && match change {
             case CountAttempt => after[id] == rows[id].(attemptCount := rows[id].attemptCount + 1)
             case ResolveStored(attachmentId, at) =>
               after[id] == rows[id].(
                 status := Stored, attachmentId := Some(attachmentId), lastError := None,
                 resolvedAt := if at.Some? then at else Some(now))
             case ResolveFailed(error, at) =>
               after[id] == rows[id].(
                 status := Failed, lastError := Some(if |error| <= 2000 then error else error[..2000]),
                 resolvedAt := if at.Some? then at else Some(now))
           }
  {
  }

  /** The first resolution of a pending row wins: no later write changes it, and other tenants see nothing. */
  lemma FirstResolutionWins(
    store: Store, rows: Rows, id: FetchId, first: Change, second: Change, tenant: string, now: int, later: int)
    requires id in rows && rows[id].status.Pending? && !first.CountAttempt?
    ensures var (response, after) := Step(store, rows, Write(id, rows[id].tenantId, first), now);
      && response.Found? && response.record.IsTerminal()
      && Step(store, after, Write(id, tenant, second), later) == (Nothing, after)
      && Step(store, after, Get(id, tenant), later).0 == if tenant == rows[id].tenantId then response else Nothing
  {
  }

  // ---------- Rows over time ----------

  /** What a row may become: pending rows count attempts and get resolved, resolved rows stay. */
  ghost predicate Ages(before: Record, after: Record) {
    && after.fetchId == before.fetchId && after.Key() == before.Key()
    && after.externalMessageId == before.externalMessageId
    && after.createdAt == before.createdAt && after.mimeType == before.mimeType
    && before.attemptCount <= after.attemptCount
    && (before.IsTerminal() ==> after == before)
  }

  /** In the table, no run removes a row or changes a resolved one. */
  lemma {:induction false} ResolvedRowsAreFrozen(rows: Rows, script: Script, id: FetchId)
    requires id in rows
    ensures id in Run(InTable, rows, script).1
    ensures Ages(rows[id], Run(InTable, rows, script).1[id])
  {
    if script != [] {
      ResolvedRowsAreFrozen(rows, script[..|script| - 1], id);
    }
  }

  /** The request creates another key under this id. */
  predicate Takes(request: Request, id: FetchId, key: NaturalKey) {
    request.CreatePending? && DeriveFetchId(request.creation.Key()) == id && request.creation.Key() != key
  }

  /** At all times of the run the row is there and has only aged. */
  ghost predicate AgesThroughout(store: Store, rows: Rows, script: Script, id: FetchId)
    requires id in rows
  {
    var after := Run(store, rows, script).1;
    && id in after && Ages(rows[id], after[id])
    && (script != [] ==> AgesThroughout(store, rows, script[..|script| - 1], id))
  }

  /** In memory, a row stays and only ages exactly as long as no other key is created under its id. */
  lemma {:induction false} FrozenInMemoryExactly(rows: Rows, script: Script, id: FetchId)
    requires id in rows
    ensures AgesThroughout(InMemory, rows, script, id) <==>
      forall i :: 0 <= i < |script| ==> !Takes(script[i].0, id, rows[id].Key())
  {
    if script != [] {
      var (front, last) := (script[..|script| - 1], script[|script| - 1]);
      FrozenInMemoryExactly(rows, front, id);
      if AgesThroughout(InMemory, rows, front, id) {
        StepAgesInMemory(Run(InMemory, rows, front).1, last.0, last.1, id, rows[id]);
      }
      assert forall i :: 0 <= i < |front| ==> script[i] == front[i];
    }
  }

  lemma StepAgesInMemory(rows: Rows, request: Request, now: int, id: FetchId, first: Record)
    requires id in rows && Ages(first, rows[id])
    ensures id in Step(InMemory, rows, request, now).1
    ensures Ages(first, Step(InMemory, rows, request, now).1[id]) <==> !Takes(request, id, first.Key())
  {
  }

  /** So with plain creations it does, also from the middle of a run. */
  lemma ResolvedRowsAreFrozenInMemory(script: Script, more: Script, id: FetchId)
    requires forall i :: 0 <= i < |script| ==> Plain(script[i].0)
    requires forall i :: 0 <= i < |more| ==> Plain(more[i].0)
    requires id in Run(InMemory, map[], script).1
    ensures id in Run(InMemory, map[], script + more).1
    ensures Ages(Run(InMemory, map[], script).1[id], Run(InMemory, map[], script + more).1[id])
  {
    var rows := Run(InMemory, map[], script).1;
    StoresAgree(script);
    AlwaysConsistent(InMemory, map[], script);
    assert id == DeriveFetchId(rows[id].Key()) && BarFree(rows[id].tenantId);
    forall i | 0 <= i < |more|
      ensures !Takes(more[i].0, id, rows[id].Key())
    {
      if more[i].0.CreatePending? && BarFree(more[i].0.creation.tenantId) {
        SeedInjective(rows[id].Key(), more[i].0.creation.Key());
      }
    }
    FrozenInMemoryExactly(rows, more, id);
    RunInTwoParts(InMemory, map[], script, more);
  }

  lemma {:induction false} RunInTwoParts(store: Store, rows: Rows, script: Script, more: Script)
    ensures Run(store, rows, script + more).1 == Run(store, Run(store, rows, script).1, more).1
  {
    if more == [] {
      assert script + more == script;
    } else {
      var before := more[..|more| - 1];
      RunInTwoParts(store, rows, script, before);
      assert (script + more)[..|script + more| - 1] == script + before;
    }
  }

  // ---------- The store in memory ----------

  class InMemoryMediaFetch {
    /** A dictionary: its entries, and its keys in the order of insertion. */
    var rows: Rows
    var order: seq<FetchId>

    ghost predicate Valid()
      reads this
    {
      && Consistent(rows)
      && (forall id :: id in order <==> id in rows)
      && (forall i, j :: 0 <= i < j < |order| ==> order[i] != order[j])
    }

    constructor ()
      ensures Valid() && rows == map[]
    {
      rows, order := map[], [];
    }

    method Put(fetchId: FetchId, record: Record)
      requires Valid() && Consistent(rows[fetchId := record])
      modifies this
      ensures Valid() && rows == old(rows)[fetchId := record]
    {
      if fetchId !in rows {
        order := order + [fetchId];
      }
      rows := rows[fetchId := record];
    }

    /** Looks for the natural key row by row before it adds one. */
    method CreatePending(c: Creation, now: int) returns (record: Record)
      requires Valid()
      modifies this
      ensures Valid() && (Found(record), rows) == CreatedInMemory(old(rows), c, now)
    {
      for n := 0 to |order|
        invariant Valid() && rows == old(rows) && order == old(order)
        invariant forall k :: 0 <= k < n ==> rows[order[k]].Key() != c.Key()
      {
        var existing := rows[order[n]];
        if existing.tenantId == c.tenantId && existing.ingressId == c.ingressId && existing.mediaId == c.mediaId {
          assert order[n] == DeriveFetchId(existing.Key());
          return existing;
        }
      }
      record := NewRecord(c, now);
      StepKeepsConsistent(InMemory, rows, Request.CreatePending(c), now);
      assert !Holds(rows, c.Key()) by {
        assert Holds(rows, c.Key()) ==> DeriveFetchId(c.Key()) in order;
      }
      Put(record.fetchId, record);
    }

    method Get(fetchId: FetchId, tenantId: string) returns (r: Option<Record>)
      requires Valid()
      ensures (if r.Some? then Found(r.value) else Nothing) == Read(rows, fetchId, tenantId)
      ensures r.Some? <==> fetchId in rows && rows[fetchId].tenantId == tenantId
      ensures r.Some? ==> r.value == rows[fetchId]
    {
      if fetchId !in rows || rows[fetchId].tenantId != tenantId {
        return None;
      }
      r := Some(rows[fetchId]);
    }

    /** Increments the attempts, or marks as stored or failed. */
    method Write(fetchId: FetchId, tenantId: string, change: Change, now: int) returns (r: Option<Record>)
      requires Valid()
      modifies this
      ensures Valid()
      ensures (if r.Some? then Found(r.value) else Nothing, rows) == Written(old(rows), fetchId, tenantId, change, now)
    {
      var record := Get(fetchId, tenantId);
      if record.None? || record.value.IsTerminal() {
        return None;
      }
      var updated := Changed(record.value, change, now);
      StepKeepsConsistent(InMemory, rows, Request.Write(fetchId, tenantId, change), now);
      Put(fetchId, updated);
      r := Some(updated);
    }
  }

  // ---------- The store in a table ----------

  class PostgresMediaFetch {
    /** The table, by primary key. */
    var rows: Rows

    ghost predicate Valid()
      reads this
    {
      Consistent(rows)
    }

    constructor ()
      ensures Valid() && rows == map[]
    {
      rows := map[];
    }

    /** The one row with a natural key, if there is one. */
    method GetByNaturalKey(key: NaturalKey) returns (r: Option<Record>)
      requires Valid()
      ensures r == if Holds(rows, key) then Some(rows[DeriveFetchId(key)]) else None
    {
      if id :| id in rows && rows[id].Key() == key {
        assert id == DeriveFetchId(rows[id].Key());
        return Some(rows[id]);
      }
      r := None;
    }

    /** Inserts unless the natural key is taken, in which case it reads the row that has it. */
    method CreatePending(c: Creation, now: int) returns (r: Result<Record, Violation>)
      requires Valid()
      modifies this
      ensures Valid()
      ensures (if r.Ok? then Found(r.value) else Rejected(r.error), rows) == CreatedInTable(old(rows), c, now)
      ensures r == Err(ColumnCheck) <==>
        || |c.tenantId| == 0 || |c.tenantId| > 255 || |c.externalMessageId| > 255 || |c.mediaId| > 255
        || (c.mimeType.Some? && |c.mimeType.value| > 128)
    {
      if !Storable(c) {
        return Err(ColumnCheck);
      }
      var record := NewRecord(c, now);
      var conflict := exists id :: id in rows && rows[id].Key() == c.Key();
      if !conflict {
        assert !Holds(rows, c.Key());
        if record.fetchId in rows {
          return Err(DuplicateFetchId);
        }
        StepKeepsConsistent(InTable, rows, Request.CreatePending(c), now);
        rows := rows[record.fetchId := record];
        return Ok(record);
      }
      var existing := GetByNaturalKey(c.Key());
      assert existing.Some? by {
        var id :| id in rows && rows[id].Key() == c.Key();
        assert id == DeriveFetchId(rows[id].Key());
      }
      r := Ok(existing.value);
    }

    method Get(fetchId: FetchId, tenantId: string) returns (r: Option<Record>)
      ensures (if r.Some? then Found(r.value) else Nothing) == Read(rows, fetchId, tenantId)
    {
      r := if fetchId in rows && rows[fetchId].tenantId == tenantId then Some(rows[fetchId]) else None;
    }

    /** One guarded update; the row is read back when it changed exactly one. */
    method Write(fetchId: FetchId, tenantId: string, change: Change, now: int) returns (r: Option<Record>)
      requires Valid()
      modifies this
      ensures Valid()
      ensures (if r.Some? then Found(r.value) else Nothing, rows) == Written(old(rows), fetchId, tenantId, change, now)
    {
      var rowCount := Update(fetchId, tenantId, change, now);
      if rowCount != 1 {
        return None;
      }
      r := Get(fetchId, tenantId);
    }

    method Update(fetchId: FetchId, tenantId: string, change: Change, now: int) returns (rowCount: nat)
      requires Valid()
      modifies this
      ensures Valid()
      ensures rows == Written(old(rows), fetchId, tenantId, change, now).1
      ensures rowCount == if Written(old(rows), fetchId, tenantId, change, now).0.Found? then 1 else 0
    {
      StepKeepsConsistent(InTable, rows, Request.Write(fetchId, tenantId, change), now);
      if fetchId in rows && rows[fetchId].tenantId == tenantId && rows[fetchId].status.Pending? {
        rows := rows[fetchId := Changed(rows[fetchId], change, now)];
        rowCount := 1;
      } else {
        rowCount := 0;
      }
    }
  }
}
