/**
 The outbox table as the persistence class works on it: one method per statement or per
 read-then-update pair, and the listing of a page in table order.
 */
module OutboxStore {
  import opened Wrappers
  import opened Text
  import opened Outbox

  // ---------- Pages ----------

  const SERVER_PAGE_HARD_CAP: int := 500

  datatype Query = Query(
    outboxId: Option<Uuid>, ingressId: Option<Uuid>, tenantId: Option<string>, status: Option<Status>,
    dueBeforeOrAt: Option<int>, claimedBeforeOrAt: Option<int>, limit: int, offset: int)

  datatype Page = Page(records: seq<Row>, total: nat, limit: int, offset: int)

  predicate Matches(q: Query, row: Row) {
    && (q.outboxId.Some? ==> row.outboxId == q.outboxId.value)
    && (q.ingressId.Some? ==> row.ingressId == q.ingressId.value)
    && (q.tenantId.Some? ==> row.tenantId == q.tenantId.value)
    && (q.status.Some? ==> row.status == q.status.value)
    && (q.dueBeforeOrAt.Some? ==> AtMost(row.nextAttemptAt, q.dueBeforeOrAt.value))
    && (q.claimedBeforeOrAt.Some? ==> row.claimedAt.Some? && row.claimedAt.value <= q.claimedBeforeOrAt.value)
  }

  /** Table order: next_attempt_at (unset ones last), then created_at, then outbox_id. */
  predicate RowBefore(a: Row, b: Row) {
    if a.nextAttemptAt != b.nextAttemptAt then
      a.nextAttemptAt.Some? && (b.nextAttemptAt.Some? ==> a.nextAttemptAt.value < b.nextAttemptAt.value)
    else if a.createdAt != b.createdAt then a.createdAt < b.createdAt
    else Less(a.outboxId.text, b.outboxId.text)
  }

  lemma RowBeforeTotal(a: Row, b: Row)
    requires a.outboxId != b.outboxId
    ensures RowBefore(a, b) <==> !RowBefore(b, a)
  {
    LessTrichotomy(a.outboxId.text, b.outboxId.text);
  }

  lemma RowBeforeTransitive(a: Row, b: Row, c: Row)
    requires RowBefore(a, b) && RowBefore(b, c)
    ensures RowBefore(a, c)
  {
    if Less(a.outboxId.text, b.outboxId.text) && Less(b.outboxId.text, c.outboxId.text) {
      LessTransitive(a.outboxId.text, b.outboxId.text, c.outboxId.text);
    }
  }

  /** Every row is filed under its own id. */
  ghost predicate Filed(t: Table) {
    forall id :: id in t ==> t[id].outboxId == id
  }

  /** No two rows belong to one ingress. */
  ghost predicate OneRowPerIngress(t: Table) {
    forall id, id' :: id in t && id' in t && t[id].ingressId == t[id'].ingressId ==> id == id'
  }

  function Matching(t: Table, q: Query): set<Uuid> {
    set id | id in t && Matches(q, t[id])
  }

  predicate OnPage(page: seq<Row>, id: Uuid) {
    exists i :: 0 <= i < |page| && page[i].outboxId == id
  }

  /** `page` lists matching rows of `t` in table order. */
  ghost predicate Listed(t: Table, q: Query, page: seq<Row>) {
    && (forall i :: 0 <= i < |page| ==>
         page[i].outboxId in t && t[page[i].outboxId] == page[i] && Matches(q, page[i]))
    && (forall i, j :: 0 <= i < j < |page| ==> RowBefore(page[i], page[j]) && page[i].outboxId != page[j].outboxId)
  }

  /** All matching rows, in table order. */
  ghost predicate IsListing(t: Table, q: Query, all: seq<Row>) {
    Listed(t, q, all) && forall id :: id in Matching(t, q) ==> OnPage(all, id)
  }

  /** At most `limit` elements from position `offset` on. */
  function Slice(all: seq<Row>, offset: nat, limit: nat): seq<Row> {
    if offset >= |all| then []
    else if offset + limit >= |all| then all[offset..]
    else all[offset..offset + limit]
  }

  /** The page of the listing that the query asks for. */
  ghost predicate IsPage(t: Table, q: Query, page: seq<Row>) {
    && q.offset >= 0 && q.limit >= 0
    && exists all :: IsListing(t, q, all) && page == Slice(all, q.offset, q.limit)
  }

  /** There is one listing, so the page is definite. */
  lemma ListingIsUnique(t: Table, q: Query, a: seq<Row>, b: seq<Row>)
    requires IsListing(t, q, a) && IsListing(t, q, b)
    ensures a == b
  {
    forall id
      ensures id in PageIds(a) <==> id in PageIds(b)
    {
      PageIdsAreOnPage(a, id);
      PageIdsAreOnPage(b, id);
    }
    assert PageIds(a) == PageIds(b);
    PageIdCount(a);
    PageIdCount(b);
    forall k | 0 <= k < |a|
      ensures a[k] == b[k]
    {
      SamePrefix(t, q, a, b, k + 1);
      assert a[..k + 1][k] == b[..k + 1][k];
    }
  }

  lemma {:induction false} SamePrefix(t: Table, q: Query, a: seq<Row>, b: seq<Row>, k: nat)
    requires IsListing(t, q, a) && IsListing(t, q, b) && k <= |a| == |b|
    ensures a[..k] == b[..k]
  {
    if k > 0 {
      SamePrefix(t, q, a, b, k - 1);
      SameNext(t, q, a, b, k - 1);
      assert a[..k] == a[..k - 1] + [a[k - 1]] && b[..k] == b[..k - 1] + [b[k - 1]];
    }
  }

  /** After the same rows, two listings go on with the same row. */
  lemma SameNext(t: Table, q: Query, a: seq<Row>, b: seq<Row>, n: nat)
    requires IsListing(t, q, a) && IsListing(t, q, b) && n < |a| == |b| && a[..n] == b[..n]
    ensures a[n] == b[n]
  {
    var i := FoundLater(t, q, a, b, n);
    var j := FoundLater(t, q, b, a, n);
    if i != n && j != n {
      RowBeforeTotal(a[n], b[n]);
    }
  }

  lemma FoundLater(t: Table, q: Query, a: seq<Row>, b: seq<Row>, n: nat) returns (i: nat)
    requires IsListing(t, q, a) && IsListing(t, q, b) && n < |a| == |b| && a[..n] == b[..n]
    ensures n <= i < |b| && b[i] == a[n]
  {
    assert a[n].outboxId in Matching(t, q);
    assert forall k :: 0 <= k < n ==> a[k] == a[..n][k] && b[k] == b[..n][k];
    i :| 0 <= i < |b| && b[i].outboxId == a[n].outboxId;
  }

  /** Consecutive pages make up a longer one: nothing is skipped or shown twice. */
  lemma PagesJoin(all: seq<Row>, offset: nat, limit: nat, more: nat)
    ensures Slice(all, offset, limit) + Slice(all, offset + limit, more) == Slice(all, offset, limit + more)
  {
  }

  ghost function PageIds(page: seq<Row>): set<Uuid> {
    if page == [] then {} else PageIds(page[..|page| - 1]) + {page[|page| - 1].outboxId}
  }

  lemma {:induction false} PageIdsAreOnPage(page: seq<Row>, id: Uuid)
    ensures id in PageIds(page) <==> OnPage(page, id)
  {
    if page != [] {
      var front := page[..|page| - 1];
      PageIdsAreOnPage(front, id);
      PageGrows(front, page[|page| - 1], id);
      assert page == front + [page[|page| - 1]];
    }
  }

  lemma {:induction false} PageIdCount(page: seq<Row>)
    requires forall i, j :: 0 <= i < j < |page| ==> page[i].outboxId != page[j].outboxId
    ensures |PageIds(page)| == |page|
  {
    if page != [] {
      PageIdCount(page[..|page| - 1]);
      PageIdsAreOnPage(page[..|page| - 1], page[|page| - 1].outboxId);
    }
  }

  lemma ListingCountsMatches(t: Table, q: Query, all: seq<Row>)
    requires IsListing(t, q, all)
    ensures |all| == |Matching(t, q)|
  {
    forall id
      ensures id in PageIds(all) <==> id in Matching(t, q)
    {
      PageIdsAreOnPage(all, id);
    }
    assert PageIds(all) == Matching(t, q);
    PageIdCount(all);
  }

  /** A first page whose limit covers the matches lists them all. */
  lemma PageCoversMatches(t: Table, q: Query, page: seq<Row>)
    requires IsPage(t, q, page) && q.offset == 0 && |Matching(t, q)| <= q.limit
    ensures forall id :: id in Matching(t, q) <==> OnPage(page, id)
  {
    var all :| IsListing(t, q, all) && page == Slice(all, 0, q.limit);
    ListingCountsMatches(t, q, all);
    assert page == all;
  }

  /** What is on a page is listed. */
  lemma PageIsListed(t: Table, q: Query, page: seq<Row>)
    requires IsPage(t, q, page)
    ensures Listed(t, q, page) && |page| <= q.limit
  {
    var all :| IsListing(t, q, all) && page == Slice(all, q.offset, q.limit);
    if q.offset < |all| {
      assert forall i :: 0 <= i < |page| ==> page[i] == all[q.offset + i];
    }
  }

  /** What a page says in terms of columns: which rows match, in which order, and how many. */
  lemma PageInColumns(t: Table, q: Query, page: seq<Row>)
    requires IsPage(t, q, page)
    ensures forall i :: 0 <= i < |page| ==>
      && page[i].outboxId in t && t[page[i].outboxId] == page[i]
      && (q.outboxId.Some? ==> page[i].outboxId == q.outboxId.value)
      && (q.ingressId.Some? ==> page[i].ingressId == q.ingressId.value)
      && (q.tenantId.Some? ==> page[i].tenantId == q.tenantId.value)
      && (q.status.Some? ==> page[i].status == q.status.value)
      && (q.dueBeforeOrAt.Some? ==>
            page[i].nextAttemptAt.None? || page[i].nextAttemptAt.value <= q.dueBeforeOrAt.value)
      && (q.claimedBeforeOrAt.Some? ==>
            page[i].claimedAt.Some? && page[i].claimedAt.value <= q.claimedBeforeOrAt.value)
    ensures forall i, j :: 0 <= i < j < |page| ==>
      && page[i].outboxId != page[j].outboxId
      && (page[i].nextAttemptAt.None? ==> page[j].nextAttemptAt.None?)
      && (page[i].nextAttemptAt.Some? && page[j].nextAttemptAt.Some? ==>
            page[i].nextAttemptAt.value <= page[j].nextAttemptAt.value)
      && (page[i].nextAttemptAt == page[j].nextAttemptAt ==> page[i].createdAt <= page[j].createdAt)
      && (page[i].nextAttemptAt == page[j].nextAttemptAt && page[i].createdAt == page[j].createdAt ==>
            Less(page[i].outboxId.text, page[j].outboxId.text))
  {
    PageIsListed(t, q, page);
    assert forall i, j :: 0 <= i < j < |page| ==> RowBefore(page[i], page[j]);
  }

  /** How many rows match, in terms of columns, and how many of them a page has. */
  lemma TotalInColumns(t: Table, q: Query, page: seq<Row>)
    requires IsPage(t, q, page)
    ensures Matching(t, q) == set id | id in t
      && (q.outboxId.Some? ==> t[id].outboxId == q.outboxId.value)
      && (q.ingressId.Some? ==> t[id].ingressId == q.ingressId.value)
      && (q.tenantId.Some? ==> t[id].tenantId == q.tenantId.value)
      && (q.status.Some? ==> t[id].status == q.status.value)
      && (q.dueBeforeOrAt.Some? ==> t[id].nextAttemptAt.None? || t[id].nextAttemptAt.value <= q.dueBeforeOrAt.value)
      && (q.claimedBeforeOrAt.Some? ==> t[id].claimedAt.Some? && t[id].claimedAt.value <= q.claimedBeforeOrAt.value)
    ensures |page| ==
      if q.offset >= |Matching(t, q)| then 0
      else if |Matching(t, q)| - q.offset < q.limit then |Matching(t, q)| - q.offset
      else q.limit
  {
    var all :| IsListing(t, q, all) && page == Slice(all, q.offset, q.limit);
    ListingCountsMatches(t, q, all);
  }

  /** The page lists what is not left over, and everything left over comes later. */
  ghost predicate ListedSoFar(t: Table, q: Query, page: seq<Row>, rest: set<Uuid>) {
    && Listed(t, q, page)
    && rest <= Matching(t, q)
    && (forall id :: id in Matching(t, q) ==> (OnPage(page, id) <==> id !in rest))
    && (forall id, i :: id in rest && 0 <= i < |page| ==> RowBefore(page[i], t[id]))
  }

  lemma ListOneMore(t: Table, q: Query, page: seq<Row>, rest: set<Uuid>, first: Uuid)
    requires Filed(t) && ListedSoFar(t, q, page, rest) && first in rest
    requires forall id :: id in rest && id != first ==> RowBefore(t[first], t[id])
    ensures ListedSoFar(t, q, page + [t[first]], rest - {first})
  {
    forall id | id in Matching(t, q)
      ensures OnPage(page + [t[first]], id) <==> id !in rest - {first}
    {
      PageGrows(page, t[first], id);
    }
    forall i | 0 <= i < |page|
      ensures page[i].outboxId != first
    {
      assert OnPage(page, page[i].outboxId);
    }
  }

  // ---------- The table ----------

  class OutboxStore {
    var rows: Table

    ghost predicate Valid()
      reads this
    {
      Filed(rows) && OneRowPerIngress(rows)
    }

    constructor ()
      ensures rows == map[] && Valid()
    {
      rows := map[];
    }

    method GetOutbox(id: Uuid) returns (r: Option<Row>)
      ensures r == if id in rows then Some(rows[id]) else None
    {
      r := if id in rows then Some(rows[id]) else None;
    }

    method GetOutboxByIngress(ingressId: Uuid) returns (r: Option<Row>)
      ensures r.Some? <==> KnownIngress(rows, ingressId)
      ensures r.Some? ==> exists id :: id in rows && rows[id] == r.value && rows[id].ingressId == ingressId
    {
      r := None;
      if KnownIngress(rows, ingressId) {
        var id :| id in rows && rows[id].ingressId == ingressId;
        r := Some(rows[id]);
      }
    }

    /** One UPDATE statement: tells whether it hit a row. */
    method Execute(id: Uuid, w: Write) returns (hit: bool)
      requires Valid()
      modifies this
      ensures Valid()
      ensures rows == Update(old(rows), id, w)
      ensures hit == Hits(old(rows), id, w)
    {
      hit := id in rows && Guard(rows[id], w);
      if hit {
        rows := rows[id := After(rows[id], w)];
      }
    }

    /**
     Creation from a captured ingress: nothing for one that is not to be dispatched, the existing
     row, untouched, for one that has a row, and an error when the primary key is taken.
     */
    method CreateOutboxForIngress(record: IngressRecord, outboxId: Uuid, createdAt: Option<int>)
      returns (r: Result<Option<Row>, string>)
      requires Valid()
      modifies this
      ensures Valid()
      ensures !Eligible(record) ==> r == Ok(None) && rows == old(rows)
      ensures Eligible(record) ==> rows == Insert(old(rows), MakeRow(record, outboxId, createdAt).value)
      ensures Eligible(record) && KnownIngress(old(rows), record.ingressId) ==>
        rows == old(rows) && r.Ok? && r.value.Some?
        && r.value.value.ingressId == record.ingressId && r.value.value.outboxId in rows
        && rows[r.value.value.outboxId] == r.value.value
      ensures Eligible(record) && !KnownIngress(old(rows), record.ingressId) ==>
        (r.Err? <==> outboxId in old(rows)) && (r.Ok? ==> r.value == MakeRow(record, outboxId, createdAt))
    {
      var made := MakeRow(record, outboxId, createdAt);
      if made.None? {
        return Ok(None);
      }
      if KnownIngress(rows, record.ingressId) {
        var existing := GetOutboxByIngress(record.ingressId);
        return Ok(existing);
      }
      if outboxId in rows {
        return Err("duplicate outbox_id");
      }
      rows := rows[outboxId := made.value];
      r := Ok(made);
    }

    /** Claims the row if it is pending and due, and returns it as claimed. */
    method ClaimOutbox(id: Uuid, claimId: ClaimId, workerId: string, claimedAt: int) returns (r: Option<Row>)
      requires Valid()
      modifies this
      ensures Valid()
      ensures rows == Update(old(rows), id, Claim(claimId, workerId, claimedAt))
      ensures r == if Hits(old(rows), id, Claim(claimId, workerId, claimedAt)) then Some(rows[id]) else None
      ensures r.Some? <==>
        && id in old(rows) && old(rows)[id].status == Pending
        && (old(rows)[id].nextAttemptAt.None? || old(rows)[id].nextAttemptAt.value <= claimedAt)
      ensures r.Some? ==> r.value == old(rows)[id].(
        status := Claimed, claimedAt := Some(claimedAt), claimId := Some(claimId), workerId := Some(workerId),
        attemptCount := old(rows)[id].attemptCount + 1, lastError := None)
      ensures rows == if r.Some? then old(rows)[id := r.value] else old(rows)
    {
      var hit := Execute(id, Claim(claimId, workerId, claimedAt));
      r := None;
      if hit {
        r := GetOutbox(id);
      }
    }

    method MarkOutboxDispatched(id: Uuid, claimId: ClaimId, dispatchedAt: int) returns (r: Option<Row>)
      requires Valid()
      modifies this
      ensures Valid()
      ensures rows == Update(old(rows), id, MarkDispatched(claimId, dispatchedAt))
      ensures r == if Hits(old(rows), id, MarkDispatched(claimId, dispatchedAt)) then Some(rows[id]) else None
      ensures r.Some? <==>
        id in old(rows) && old(rows)[id].status == Claimed && old(rows)[id].claimId == Some(claimId)
      ensures r.Some? ==>
        r.value == old(rows)[id].(status := Dispatched, dispatchedAt := Some(dispatchedAt), lastError := None)
      ensures rows == if r.Some? then old(rows)[id := r.value] else old(rows)
    {
      var hit := Execute(id, MarkDispatched(claimId, dispatchedAt));
      r := None;
      if hit {
        r := GetOutbox(id);
      }
    }

    /** The metadata the next statement writes back; none for a missing row. */
    method ReadMetadata(id: Uuid) returns (m: Metadata)
      ensures m == CurrentMetadata(rows, id)
    {
      m := if id in rows then rows[id].metadata else map[];
    }

    method RescheduleOutbox(id: Uuid, claimId: ClaimId, nextAttemptAt: int, error: string) returns (r: Option<Row>)
      requires Valid()
      modifies this
      ensures Valid()
      ensures
        var w := Reschedule(claimId, nextAttemptAt, error, CurrentMetadata(old(rows), id));
        rows == Update(old(rows), id, w) && r == if Hits(old(rows), id, w) then Some(rows[id]) else None
      ensures r.Some? <==>
        id in old(rows) && old(rows)[id].status == Claimed && old(rows)[id].claimId == Some(claimId)
      ensures r.Some? ==> r.value == old(rows)[id].(
        status := Pending, claimId := None, workerId := None, claimedAt := None,
        nextAttemptAt := Some(nextAttemptAt), lastError := Some(error),
        metadata := old(rows)[id].metadata[RetryNextAttemptAt := Time(nextAttemptAt)][RetryLastError := Text(error)])
      ensures rows == if r.Some? then old(rows)[id := r.value] else old(rows)
    {
      var snapshot := ReadMetadata(id);
      var hit := Execute(id, Reschedule(claimId, nextAttemptAt, error, snapshot));
      r := None;
      if hit {
        r := GetOutbox(id);
      }
    }

    method DeadLetterOutbox(id: Uuid, claimId: ClaimId, error: string, deadLetteredAt: int) returns (r: Option<Row>)
      requires Valid()
      modifies this
      ensures Valid()
      ensures
        var w := DeadLetter(claimId, error, deadLetteredAt, CurrentMetadata(old(rows), id));
        rows == Update(old(rows), id, w) && r == if Hits(old(rows), id, w) then Some(rows[id]) else None
      ensures r.Some? <==>
        id in old(rows) && old(rows)[id].status == Claimed && old(rows)[id].claimId == Some(claimId)
      ensures r.Some? ==> r.value == old(rows)[id].(
        status := DeadLettered, lastError := Some(error),
        metadata := old(rows)[id].metadata[DeadLetteredAt := Time(deadLetteredAt)][DeadLetterReason := Text(error)])
      ensures rows == if r.Some? then old(rows)[id := r.value] else old(rows)
    {
      var snapshot := ReadMetadata(id);
      var hit := Execute(id, DeadLetter(claimId, error, deadLetteredAt, snapshot));
      r := None;
      if hit {
        r := GetOutbox(id);
      }
    }

    method RequeueStaleOutbox(id: Uuid, staleBefore: int, requeuedAt: int, reason: string) returns (r: Option<Row>)
      requires Valid()
      modifies this
      ensures Valid()
      ensures
        var w := RequeueStale(staleBefore, requeuedAt, reason, CurrentMetadata(old(rows), id));
        rows == Update(old(rows), id, w) && r == if Hits(old(rows), id, w) then Some(rows[id]) else None
      ensures r.Some? <==>
        && id in old(rows) && old(rows)[id].status == Claimed
        && old(rows)[id].claimedAt.Some? && old(rows)[id].claimedAt.value <= staleBefore
      ensures r.Some? ==> r.value == old(rows)[id].(
        status := Pending, claimId := None, workerId := None, claimedAt := None, lastError := Some(reason),
        metadata := old(rows)[id].metadata[ReconcilerReason := Text(reason)][ReconcilerRequeuedAt := Time(requeuedAt)])
      ensures rows == if r.Some? then old(rows)[id := r.value] else old(rows)
    {
      var snapshot := ReadMetadata(id);
      var hit := Execute(id, RequeueStale(staleBefore, requeuedAt, reason, snapshot));
      r := None;
      if hit {
        r := GetOutbox(id);
      }
    }

    /** The listed row that comes first. */
    method FirstOf(ids: set<Uuid>) returns (first: Uuid)
      requires Filed(rows) && ids != {} && ids <= rows.Keys
      ensures first in ids
      ensures forall id :: id in ids && id != first ==> RowBefore(rows[first], rows[id])
    {
      first :| first in ids;
      var rest := ids - {first};
      while rest != {}
        invariant rest <= ids && first in ids
        invariant forall id :: id in ids - rest && id != first ==> RowBefore(rows[first], rows[id])
        decreases rest
      {
        var next :| next in rest;
        if RowBefore(rows[next], rows[first]) {
          forall id | id in ids - rest && id != first
            ensures RowBefore(rows[next], rows[id])
          {
            RowBeforeTransitive(rows[next], rows[first], rows[id]);
          }
          first := next;
        } else {
          if next != first {
            RowBeforeTotal(rows[next], rows[first]);
          }
        }
        rest := rest - {next};
      }
    }

    /** A page of the table; a negative offset, or a limit outside 1..500, is rejected. */
    method ListOutbox(q: Query) returns (r: Result<Page, string>)
      requires Valid()
      ensures r.Err? <==> q.offset < 0 || q.limit < 1 || q.limit > 500
      ensures r.Ok? ==> IsPage(rows, q, r.value.records)
      ensures r.Ok? ==> r.value.total == |Matching(rows, q)| && r.value.limit == q.limit && r.value.offset == q.offset
    {
      if q.offset < 0 {
        return Err("offset must be >= 0");
      }
      if q.limit < 1 {
        return Err("limit must be >= 1");
      }
      if q.limit > SERVER_PAGE_HARD_CAP {
        return Err("limit must be <= 500");
      }
      var rest := Matching(rows, q);
      var total := |rest|;
      var all: seq<Row> := [];
      while rest != {}
        invariant ListedSoFar(rows, q, all, rest)
        decreases rest
      {
        var first := FirstOf(rest);
        ListOneMore(rows, q, all, rest, first);
        all := all + [rows[first]];
        rest := rest - {first};
      }
      r := Ok(Page(Slice(all, q.offset, q.limit), total, q.limit, q.offset));
    }
  }

  lemma PageGrows(page: seq<Row>, row: Row, id: Uuid)
    ensures OnPage(page + [row], id) <==> OnPage(page, id) || row.outboxId == id
  {
    var longer := page + [row];
    if OnPage(page, id) {
      var i :| 0 <= i < |page| && page[i].outboxId == id;
      assert longer[i].outboxId == id;
    }
    if row.outboxId == id {
      assert longer[|page|].outboxId == id;
    }
  }
}
