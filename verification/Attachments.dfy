/**
 Attachment storage: a bounded read of the incoming chunks, a check of the magic bytes, and then
 either an encrypted blob with a `stored` row or a `rejected` row without one. Reading back
 decrypts the blob of the owning tenant's row.
 */
module Attachments {
  import opened Wrappers
  import opened Text
  import opened Sniffing

  // ---------- The bounded reader ----------

  function Concat(chunks: seq<Bytes>): Bytes {
    if chunks == [] then [] else Concat(chunks[..|chunks| - 1]) + chunks[|chunks| - 1]
  }

  /** Chunks are concatenated in their order: one chunk is itself, and two lists of chunks follow each other. */
  lemma {:induction false} ConcatJoins(a: seq<Bytes>, b: seq<Bytes>, chunk: Bytes)
    ensures Concat([chunk]) == chunk && Concat(a + b) == Concat(a) + Concat(b)
  {
    assert [chunk][..0] == [];
    if b == [] {
      assert a + b == a;
    } else {
      assert (a + b)[..|a + b| - 1] == a + b[..|b| - 1];
      ConcatJoins(a, b[..|b| - 1], chunk);
    }
  }

  /** No prefix of the chunks is longer than the cap. */
  ghost predicate WithinCap(chunks: seq<Bytes>, maxBytes: int) {
    forall k :: 0 < k <= |chunks| ==> |Concat(chunks[..k])| <= maxBytes
  }

  /** The shortest prefix of the chunks that is longer than the cap has `n` of them. */
  ghost predicate FirstOverrun(chunks: seq<Bytes>, maxBytes: int, n: int) {
    && 0 < n <= |chunks|
    && |Concat(chunks[..n])| > maxBytes
    && (forall k :: 0 < k < n ==> |Concat(chunks[..k])| <= maxBytes)
  }

  datatype TooLarge = TooLarge(maxBytes: int, bytesRead: nat)
  {
    function Message(): string {
      "attachment exceeds " + (if maxBytes < 0 then "-" + Decimal(-maxBytes) else Decimal(maxBytes)) +
      " byte limit (aborted after buffering " + Decimal(bytesRead) + " bytes)"
    }
  }

  /**
   Reads the chunks, or stops at the first one that takes the total over the cap; `pulled` counts
   the chunks taken from the source.
   */
  method ReadBounded(chunks: seq<Bytes>, maxBytes: int) returns (r: Result<Bytes, TooLarge>, pulled: nat)
    ensures pulled <= |chunks|
    ensures r.Ok? <==> WithinCap(chunks, maxBytes)
    ensures r.Ok? ==> r.value == Concat(chunks) && pulled == |chunks|
    ensures r.Err? ==> FirstOverrun(chunks, maxBytes, pulled)
    ensures r.Err? ==> r.error == TooLarge(maxBytes, |Concat(chunks[..pulled])|)
  {
    var buf: Bytes := [];
    pulled := 0;
    while pulled < |chunks|
      invariant pulled <= |chunks|
      invariant buf == Concat(chunks[..pulled])
      invariant forall k :: 0 < k <= pulled ==> |Concat(chunks[..k])| <= maxBytes
    {
      assert chunks[..pulled + 1][..pulled] == chunks[..pulled];
      buf := buf + chunks[pulled];
      pulled := pulled + 1;
      if |buf| > maxBytes {
        return Err(TooLarge(maxBytes, |buf|)), pulled;
      }
    }
    assert chunks[..|chunks|] == chunks;
    r := Ok(buf);
  }

  lemma {:induction false} ConcatGrows(chunks: seq<Bytes>, k: nat)
    requires k <= |chunks|
    ensures |Concat(chunks[..k])| <= |Concat(chunks)|
  {
    if k < |chunks| {
      ConcatGrows(chunks[..|chunks| - 1], k);
      assert chunks[..|chunks| - 1][..k] == chunks[..k];
    } else {
      assert chunks[..k] == chunks;
    }
  }

  /** The reader fails exactly on sources that are longer than the cap; one without chunks never is. */
  lemma ReadsWithinCap(chunks: seq<Bytes>, maxBytes: int)
    ensures WithinCap(chunks, maxBytes) <==> chunks == [] || |Concat(chunks)| <= maxBytes
  {
    forall k | 0 < k <= |chunks|
      ensures |Concat(chunks[..k])| <= |Concat(chunks)|
    {
      ConcatGrows(chunks, k);
    }
    assert chunks[..|chunks|] == chunks;
  }

  /** What was buffered before an abort exceeds the cap by the last chunk at most. */
  lemma OverrunIsSmall(chunks: seq<Bytes>, maxBytes: int, n: nat)
    requires maxBytes >= 0 && FirstOverrun(chunks, maxBytes, n)
    ensures |Concat(chunks[..n])| <= maxBytes + |chunks[n - 1]|
  {
    assert chunks[..n][..n - 1] == chunks[..n - 1];
    assert n == 1 ==> Concat(chunks[..0]) == [];
  }

  // ---------- Rows and blobs ----------

  datatype RowStatus = Stored | Rejected

  datatype Row = Row(
    tenantId: string, storageKey: Option<string>, contentTypeSniffed: Option<string>,
    sizeBytes: nat, digest: string, status: RowStatus, rejectionReason: Option<string>)

  datatype Record = Record(row: Row, content: Option<Bytes>)

  datatype StoreError = PersistenceError | NotFound

  /** The surroundings: encryption, digest, and the libraries that magic-byte detection uses. */
  datatype Services = Services(
    encrypt: (Bytes, string) -> Bytes, decrypt: Bytes -> Bytes, digest: Bytes -> string, libraries: Libraries)

  /** What is assumed of the encryption. */
  ghost predicate Decrypts(s: Services) {
    forall raw, tenant :: s.decrypt(s.encrypt(raw, tenant)) == raw
  }

  /** The text of an attachment id: a UUID, 36 characters. */
  type AttachmentId = s: string | |s| == 36 witness seq(36, _ => '0')

  function StorageKey(tenantId: string, id: AttachmentId): string {
    tenantId + "/" + id
  }

  /** Different attachments have different keys, whatever the tenants are called. */
  lemma StorageKeysDiffer(tenant: string, id: AttachmentId, tenant': string, id': AttachmentId)
    ensures StorageKey(tenant, id) == StorageKey(tenant', id') <==> tenant == tenant' && id == id'
  {
    var (k, k') := (StorageKey(tenant, id), StorageKey(tenant', id'));
    assert k[|k| - 36..] == id && k'[|k'| - 36..] == id';
    assert k[..|k| - 37] == tenant && k'[..|k'| - 37] == tenant';
  }

  /** What became of one call to store: `Lost` when its row was not accepted by the database. */
  datatype Outcome =
    | Accepted(tenant: string, content: Bytes)
    | Refused
    | Lost

  function JudgedContent(s: Services, raw: Bytes, tenantId: string, dbAccepts: bool): Outcome {
    if !dbAccepts then Lost
    else if Sniff(s.libraries, raw).Ok? then Accepted(tenantId, raw)
    else Refused
  }

  ghost function ExpectedOutcome(
    s: Services, maxBytes: int, chunks: seq<Bytes>, tenantId: string, dbAccepts: bool): Outcome
  {
    if WithinCap(chunks, maxBytes) then JudgedContent(s, Concat(chunks), tenantId, dbAccepts)
    else if dbAccepts then Refused
    else Lost
  }

  /** A row as the history says it must be: a stored one with its blob, a rejected one without. */
  ghost predicate RowInOrder(s: Services, row: Row, blobs: map<string, Bytes>, id: AttachmentId, outcome: Outcome) {
    match outcome
    case Accepted(tenant, content) =>
      && row.status.Stored? && row.tenantId == tenant
      && row.storageKey == Some(StorageKey(tenant, id)) && StorageKey(tenant, id) in blobs
      && blobs[StorageKey(tenant, id)] == s.encrypt(content, tenant)
      && row.sizeBytes == |content| && row.digest == s.digest(content)
    case Refused =>
      && row.status.Rejected? && row.storageKey.None? && row.rejectionReason.Some?
      && StorageKey(row.tenantId, id) !in blobs
    case Lost => false
  }

  /** The key belongs to an attachment that was not refused. */
  ghost predicate Owned(key: string, history: map<AttachmentId, Outcome>) {
    exists tenant, id :: key == StorageKey(tenant, id) && id in history && !history[id].Refused?
  }

  /** Rows are exactly those of the attachments not lost, each in order, and every blob is owned. */
  ghost predicate InOrder(
    s: Services, rows: map<AttachmentId, Row>, blobs: map<string, Bytes>, history: map<AttachmentId, Outcome>)
  {
    && (forall id :: id in rows <==> id in history && !history[id].Lost?)
    && (forall id :: id in rows ==> RowInOrder(s, rows[id], blobs, id, history[id]))
    && (forall key :: key in blobs ==> Owned(key, history))
  }

  lemma FreshIdHasNoBlob(tenant: string, id: AttachmentId, history: map<AttachmentId, Outcome>)
    requires id !in history
    ensures !Owned(StorageKey(tenant, id), history)
  {
    forall tenant', id' | id' in history
      ensures StorageKey(tenant, id) != StorageKey(tenant', id')
    {
      StorageKeysDiffer(tenant, id, tenant', id');
    }
  }

  lemma OwnedStays(key: string, history: map<AttachmentId, Outcome>, id: AttachmentId, outcome: Outcome)
    requires Owned(key, history) && id !in history
    ensures Owned(key, history[id := outcome])
  {
    var tenant, other :| key == StorageKey(tenant, other) && other in history && !history[other].Refused?;
    assert history[id := outcome][other] == history[other];
  }

  /** A refusal keeps the order. */
  lemma RefusedInOrder(
    s: Services, rows: map<AttachmentId, Row>, blobs: map<string, Bytes>, history: map<AttachmentId, Outcome>,
    id: AttachmentId, row: Row)
    requires InOrder(s, rows, blobs, history) && id !in history
    requires row.status.Rejected? && row.storageKey.None? && row.rejectionReason.Some?
    ensures InOrder(s, rows[id := row], blobs, history[id := Refused])
  {
    FreshIdHasNoBlob(row.tenantId, id, history);
    forall key | key in blobs
      ensures Owned(key, history[id := Refused])
    {
      OwnedStays(key, history, id, Refused);
    }
  }

  /** A row that the database did not accept keeps the order, with or without its blob. */
  lemma LostInOrder(
    s: Services, rows: map<AttachmentId, Row>, blobs: map<string, Bytes>, history: map<AttachmentId, Outcome>,
    id: AttachmentId)
    requires InOrder(s, rows, blobs, history) && id !in history
    ensures InOrder(s, rows, blobs, history[id := Lost])
  {
    forall key | key in blobs
      ensures Owned(key, history[id := Lost])
    {
      OwnedStays(key, history, id, Lost);
    }
  }

  /** A new blob under a fresh id touches no other attachment. */
  lemma BlobInOrder(
    s: Services, rows: map<AttachmentId, Row>, blobs: map<string, Bytes>, history: map<AttachmentId, Outcome>,
    id: AttachmentId, tenant: string, blobs': map<string, Bytes>, blob: Bytes, outcome: Outcome)
    requires InOrder(s, rows, blobs, history) && id !in history && !outcome.Refused?
    requires blobs' == blobs[StorageKey(tenant, id) := blob]
    ensures forall other :: other in rows ==> RowInOrder(s, rows[other], blobs', other, history[other])
    ensures forall key :: key in blobs' ==> Owned(key, history[id := outcome])
  {
    forall other | other in rows
      ensures RowInOrder(s, rows[other], blobs', other, history[other])
    {
      StorageKeysDiffer(rows[other].tenantId, other, tenant, id);
    }
    forall key | key in blobs'
      ensures Owned(key, history[id := outcome])
    {
      if key == StorageKey(tenant, id) {
        assert id in history[id := outcome];
      } else {
        OwnedStays(key, history, id, outcome);
      }
    }
  }

  lemma StoredInOrder(
    s: Services, rows: map<AttachmentId, Row>, blobs: map<string, Bytes>, history: map<AttachmentId, Outcome>,
    id: AttachmentId, tenant: string, content: Bytes, row: Row)
    requires InOrder(s, rows, blobs, history) && id !in history
    requires row.status.Stored? && row.tenantId == tenant && row.storageKey == Some(StorageKey(tenant, id))
    requires row.sizeBytes == |content| && row.digest == s.digest(content)
    ensures InOrder(s, rows[id := row], blobs[StorageKey(tenant, id) := s.encrypt(content, tenant)],
                    history[id := Accepted(tenant, content)])
    ensures InOrder(s, rows, blobs[StorageKey(tenant, id) := s.encrypt(content, tenant)], history[id := Lost])
  {
    var blob := s.encrypt(content, tenant);
    var blobs' := blobs[StorageKey(tenant, id) := blob];
    BlobInOrder(s, rows, blobs, history, id, tenant, blobs', blob, Accepted(tenant, content));
    BlobInOrder(s, rows, blobs, history, id, tenant, blobs', blob, Lost);
  }

  datatype Request = Request(id: AttachmentId, chunks: seq<Bytes>, tenantId: string, dbAccepts: bool)

  /** The history tells of the request what its own chunks and its own tenant make of it. */
  ghost predicate Settled(s: Services, maxBytes: int, q: Request, history: map<AttachmentId, Outcome>) {
    q.id in history && history[q.id] == ExpectedOutcome(s, maxBytes, q.chunks, q.tenantId, q.dbAccepts)
  }

  lemma StillSettled(
    s: Services, maxBytes: int, requests: seq<Request>, n: nat,
    before: map<AttachmentId, Outcome>, after: map<AttachmentId, Outcome>)
    requires n < |requests|
    requires forall i, j :: 0 <= i < j < |requests| ==> requests[i].id != requests[j].id
    requires forall i :: 0 <= i < n ==> Settled(s, maxBytes, requests[i], before)
    requires after == before[requests[n].id :=
      ExpectedOutcome(s, maxBytes, requests[n].chunks, requests[n].tenantId, requests[n].dbAccepts)]
    ensures forall i :: 0 <= i <= n ==> Settled(s, maxBytes, requests[i], after)
  {
    forall i | 0 <= i < n
      ensures Settled(s, maxBytes, requests[i], after)
    {
      assert Settled(s, maxBytes, requests[i], before);
    }
  }

  class AttachmentStore {
    const services: Services
    const maxBytes: int
    var rows: map<AttachmentId, Row>
    var blobs: map<string, Bytes>
    ghost var history: map<AttachmentId, Outcome>

    ghost predicate Valid()
      reads this
    {
      InOrder(services, rows, blobs, history)
    }

    constructor (services: Services, maxBytes: int)
      ensures this.services == services && this.maxBytes == maxBytes
      ensures rows == map[] && blobs == map[] && history == map[] && Valid()
    {
      this.services := services;
      this.maxBytes := maxBytes;
      rows, blobs, history := map[], map[], map[];
    }

    /** A refused attachment leaves a row with its reason, and nothing else. */
    method InsertRejected(
      id: AttachmentId, tenantId: string, sizeBytes: nat, digest: string, reason: string, dbAccepts: bool)
      returns (r: Result<Row, StoreError>)
      requires Valid() && id !in history
      modifies this`rows, this`history
      ensures Valid()
      ensures
        r == if dbAccepts then Ok(Row(tenantId, None, None, sizeBytes, digest, Rejected, Some(reason)))
             else Err(PersistenceError)
      ensures rows == if dbAccepts then old(rows)[id := r.value] else old(rows)
      ensures history == old(history)[id := if dbAccepts then Refused else Lost]
    {
      if !dbAccepts {
        LostInOrder(services, rows, blobs, history, id);
        history := history[id := Lost];
        return Err(PersistenceError);
      }
      var row := Row(tenantId, None, None, sizeBytes, digest, Rejected, Some(reason));
      RefusedInOrder(services, rows, blobs, history, id, row);
      rows := rows[id := row];
      history := history[id := Refused];
      r := Ok(row);
    }

    /** The row of an accepted attachment, whose blob has been written. */
    method InsertStored(
      id: AttachmentId, tenantId: string, storageKey: string, sniffed: string, sizeBytes: nat, digest: string,
      dbAccepts: bool)
      returns (r: Result<Row, StoreError>)
      modifies this`rows
      ensures r == if dbAccepts then Ok(Row(tenantId, Some(storageKey), Some(sniffed), sizeBytes, digest, Stored, None))
        else Err(PersistenceError)
      ensures rows == if dbAccepts then old(rows)[id := r.value] else old(rows)
    {
      if !dbAccepts {
        return Err(PersistenceError);
      }
      var row := Row(tenantId, Some(storageKey), Some(sniffed), sizeBytes, digest, Stored, None);
      rows := rows[id := row];
      r := Ok(row);
    }

    /**
     Takes in content within the cap. The blob is written before the row, so a refused insert can
     leave a blob without a row, never a row without a blob.
     */
    method StoreContent(id: AttachmentId, raw: Bytes, tenantId: string, dbAccepts: bool)
      returns (r: Result<Row, StoreError>)
      requires Valid() && id !in history
      modifies this
      ensures Valid()
      ensures history == old(history)[id := JudgedContent(services, raw, tenantId, dbAccepts)]
      ensures r.Ok? <==> dbAccepts
      ensures rows == if dbAccepts then old(rows)[id := r.value] else old(rows)
      ensures r.Ok? ==>
        r.value.sizeBytes == |raw| && r.value.tenantId == tenantId && r.value.digest == services.digest(raw)
      ensures blobs == if Sniff(services.libraries, raw).Err? then old(blobs)
        else old(blobs)[tenantId + "/" + id := services.encrypt(raw, tenantId)]
      ensures r.Ok? ==> (r.value.status.Stored? <==> Sniff(services.libraries, raw).Ok?)
      ensures r.Ok? && r.value.status.Stored? ==>
        && r.value.contentTypeSniffed == Some(Sniff(services.libraries, raw).value)
        && r.value.storageKey == Some(tenantId + "/" + id) && r.value.rejectionReason == None
      ensures r.Ok? && r.value.status.Rejected? ==>
        && r.value.rejectionReason == Some(Sniff(services.libraries, raw).error)
        && r.value.contentTypeSniffed == None && r.value.storageKey == None
      ensures r.Ok? && history[id].Accepted? ==>
        r.value.contentTypeSniffed.Some? && r.value.contentTypeSniffed.value in ALLOWED_CONTENT_TYPES
    {
      var digest := services.digest(raw);
      var sniffed := Sniff(services.libraries, raw);
      if sniffed.Err? {
        r := InsertRejected(id, tenantId, |raw|, digest, sniffed.error, dbAccepts);
        return;
      }
      var key := StorageKey(tenantId, id);
      StoredInOrder(services, rows, blobs, history, id, tenantId, raw,
                    Row(tenantId, Some(key), Some(sniffed.value), |raw|, digest, Stored, None));
      blobs := blobs[key := services.encrypt(raw, tenantId)];
      r := InsertStored(id, tenantId, key, sniffed.value, |raw|, digest, dbAccepts);
      history := history[id := if dbAccepts then Accepted(tenantId, raw) else Lost];
    }

    /**
     Takes in one attachment under a fresh id; an oversized one is refused with no more read than
     the shortest prefix over the cap, and its length is reported.
     */
    method Store(id: AttachmentId, chunks: seq<Bytes>, tenantId: string, dbAccepts: bool)
      returns (r: Result<Row, StoreError>, pulled: nat)
      requires Valid() && id !in history
      modifies this
      ensures Valid()
      ensures history == old(history)[id := ExpectedOutcome(services, maxBytes, chunks, tenantId, dbAccepts)]
      ensures r.Ok? <==> dbAccepts
      ensures rows == if dbAccepts then old(rows)[id := r.value] else old(rows)
      ensures WithinCap(chunks, maxBytes) ==> pulled == |chunks|
      ensures !WithinCap(chunks, maxBytes) ==> FirstOverrun(chunks, maxBytes, pulled)
      ensures r.Ok? ==> r.value.sizeBytes == |Concat(chunks[..pulled])| && r.value.tenantId == tenantId
      ensures r.Ok? ==> r.value.digest == if WithinCap(chunks, maxBytes) then services.digest(Concat(chunks)) else ""
      ensures r.Ok? && !WithinCap(chunks, maxBytes) ==>
        r.value.rejectionReason == Some(TooLarge(maxBytes, r.value.sizeBytes).Message())
      ensures r.Ok? ==> (r.value.contentTypeSniffed.Some? <==> history[id].Accepted?)
      ensures
        var raw := Concat(chunks);
        blobs == if (chunks == [] || |raw| <= maxBytes) && Sniff(services.libraries, raw).Ok?
                 then old(blobs)[tenantId + "/" + id := services.encrypt(raw, tenantId)] else old(blobs)
      ensures r.Ok? ==>
        var raw := Concat(chunks);
        && (r.value.status.Stored? <==>
              (chunks == [] || |raw| <= maxBytes) && Sniff(services.libraries, raw).Ok?)
        && (r.value.status.Stored? ==> r.value.contentTypeSniffed == Some(Sniff(services.libraries, raw).value))
        && (r.value.status.Rejected? && (chunks == [] || |raw| <= maxBytes) ==>
              r.value.rejectionReason == Some(Sniff(services.libraries, raw).error))
    {
      ReadsWithinCap(chunks, maxBytes);
      var bounded: Result<Bytes, TooLarge>;
      bounded, pulled := ReadBounded(chunks, maxBytes);
      if bounded.Err? {
        r := InsertRejected(id, tenantId, bounded.error.bytesRead, "", bounded.error.Message(), dbAccepts);
      } else {
        assert chunks[..|chunks|] == chunks;
        r := StoreContent(id, bounded.value, tenantId, dbAccepts);
      }
    }

    /** Reads an attachment back: only a stored one, and only for the tenant it belongs to. */
    method Get(id: AttachmentId, tenantId: string) returns (r: Result<Record, StoreError>)
      requires Valid() && Decrypts(services)
      ensures r == if id in history && history[id].Accepted? && history[id].tenant == tenantId
        then Ok(Record(rows[id], Some(history[id].content))) else Err(NotFound)
    {
      if id !in rows || rows[id].tenantId != tenantId || !rows[id].status.Stored? || rows[id].storageKey.None? {
        return Err(NotFound);
      }
      var ciphertext := blobs[rows[id].storageKey.value];
      r := Ok(Record(rows[id], Some(services.decrypt(ciphertext))));
    }

    /** The history tells of the requests before `n`, and not yet of the others. */
    ghost predicate Progress(requests: seq<Request>, n: nat)
      reads this
    {
      && n <= |requests|
      && (forall i :: 0 <= i < n ==> Settled(services, maxBytes, requests[i], history))
      && (forall i :: n <= i < |requests| ==> requests[i].id !in history)
    }

    /** The next request of a sequence. */
    method StoreOne(requests: seq<Request>, n: nat)
      requires Valid() && n < |requests| && Progress(requests, n)
      requires forall i, j :: 0 <= i < j < |requests| ==> requests[i].id != requests[j].id
      modifies this
      ensures Valid() && Progress(requests, n + 1)
      ensures forall id :: id in old(history) ==> id in history && history[id] == old(history)[id]
    {
      ghost var before := history;
      var q := requests[n];
      var _, _ := Store(q.id, q.chunks, q.tenantId, q.dbAccepts);
      StillSettled(services, maxBytes, requests, n, before, history);
    }

    /**
     Any sequence of stores under different fresh ids: afterwards the history tells of each one
     what its own chunks and its own tenant make of it, whatever was stored before and after.
     */
    method StoreAll(requests: seq<Request>)
      requires Valid()
      requires forall i :: 0 <= i < |requests| ==> requests[i].id !in history
      requires forall i, j :: 0 <= i < j < |requests| ==> requests[i].id != requests[j].id
      modifies this
      ensures Valid()
      ensures forall i :: 0 <= i < |requests| ==> Settled(services, maxBytes, requests[i], history)
      ensures forall id :: id in old(history) ==> id in history && history[id] == old(history)[id]
    {
      for n := 0 to |requests|
        invariant Valid() && Progress(requests, n)
        invariant forall id :: id in old(history) ==> id in history && history[id] == old(history)[id]
      {
        StoreOne(requests, n);
      }
    }
  }
}
