/**
 Which of a ticket's attachments are shown to the model: images and PDF documents, taken greedily
 in the order of their ids while their contents fit together under one byte cap.
 */
module Vision {
  import opened Wrappers
  import opened Sniffing
  import opened Attachments

  datatype BlockKind = Image | Document

  /** One content block; `content` is the attachment before its base64 encoding. */
  datatype Block = Block(kind: BlockKind, mediaType: string, content: Bytes, attachmentId: AttachmentId, digest: string)

  datatype Config = Config(maxAttachments: int, maxImageBytes: int, maxPdfPages: int, maxPayloadBytes: int)

  /** What reading an id gives: not a UUID, no stored attachment of the tenant, or the attachment. */
  datatype Lookup =
    | Malformed
    | Missing
    | Found(id: AttachmentId, record: Record)

  /** The reads an attachment repository answers, and the page count of a PDF that can be parsed. */
  datatype Repository = Repository(get: string -> Lookup, pageCount: Bytes -> Option<nat>)

  function BuildBlock(config: Config, repository: Repository, id: AttachmentId, record: Record): Option<Block> {
    if record.content.None? || record.row.contentTypeSniffed.None? then None
    else
      var content := record.content.value;
      var contentType := record.row.contentTypeSniffed.value;
      if contentType == "image/jpeg" || contentType == "image/png" then
        if |content| > config.maxImageBytes then None
        else Some(Block(Image, contentType, content, id, record.row.digest))
      else if contentType == "application/pdf" then
        var pages := repository.pageCount(content);
        if pages.None? || pages.value > config.maxPdfPages then None
        else Some(Block(Document, contentType, content, id, record.row.digest))
      else None
  }

  /** The block an id stands for, when its attachment may be shown at all. */
  function Eligible(config: Config, repository: Repository, rawId: string): Option<Block> {
    match repository.get(rawId)
    case Found(id, record) => BuildBlock(config, repository, id, record)
    case _ => None
  }

  /** The position is in front of the end of a slice, where a negative end counts from the back. */
  predicate InSlice(i: nat, length: nat, end: int) {
    i < length && i < if end < 0 then length + end else end
  }

  /** The length of such a slice. */
  function SliceLength(length: nat, end: int): (n: nat)
    ensures forall i: nat :: i < n <==> InSlice(i, length, end)
    ensures n <= length
  {
    if end >= 0 then (if end < length then end else length)
    else if length + end >= 0 then length + end
    else 0
  }

  /** A maximum of at least the number of ids takes all, a smaller one that many, a negative one leaves so many out. */
  lemma SliceInNumbers(length: nat, end: int)
    ensures end >= length ==> SliceLength(length, end) == length
    ensures 0 <= end <= length ==> SliceLength(length, end) == end
    ensures end < 0 && length + end >= 0 ==> SliceLength(length, end) == length + end
    ensures length + end < 0 ==> SliceLength(length, end) == 0
  {
  }

  function Candidates(config: Config, repository: Repository, ids: seq<string>): (cs: seq<Option<Block>>)
    ensures |cs| == SliceLength(|ids|, config.maxAttachments)
  {
    seq(SliceLength(|ids|, config.maxAttachments), i requires 0 <= i < |ids| => Eligible(config, repository, ids[i]))
  }

  // ---------- Greedy selection ----------

  /** The bytes of the chosen candidates before position `n`. */
  ghost function Weight(cs: seq<Option<Block>>, chosen: set<nat>, n: nat): nat
    requires n <= |cs|
  {
    if n == 0 then 0
    else Weight(cs, chosen, n - 1) + if n - 1 in chosen && cs[n - 1].Some? then |cs[n - 1].value.content| else 0
  }

  /** The chosen candidates before position `n`, in their order. */
  ghost function Chosen(cs: seq<Option<Block>>, chosen: set<nat>, n: nat): seq<Block>
    requires n <= |cs|
  {
    if n == 0 then []
    else Chosen(cs, chosen, n - 1) + if n - 1 in chosen && cs[n - 1].Some? then [cs[n - 1].value] else []
  }

  ghost predicate OnlyEligible(cs: seq<Option<Block>>, chosen: set<nat>) {
    forall i :: i in chosen ==> i < |cs| && cs[i].Some?
  }

  /** Candidate `i` is eligible and fits beside those chosen before it. */
  ghost predicate FitsAfter(cs: seq<Option<Block>>, cap: int, chosen: set<nat>, i: nat) {
    i < |cs| && cs[i].Some? && Weight(cs, chosen, i) + |cs[i].value.content| <= cap
  }

  /** The greedy rule: a candidate is chosen exactly when it is eligible and fits. */
  ghost predicate Greedy(cs: seq<Option<Block>>, cap: int, chosen: set<nat>) {
    forall i: nat {:trigger FitsAfter(cs, cap, chosen, i)} :: i in chosen <==> FitsAfter(cs, cap, chosen, i)
  }

  lemma {:induction false} WeightOfSame(cs: seq<Option<Block>>, a: set<nat>, b: set<nat>, n: nat)
    requires n <= |cs| && forall j: nat :: j < n ==> (j in a <==> j in b)
    ensures Weight(cs, a, n) == Weight(cs, b, n) && Chosen(cs, a, n) == Chosen(cs, b, n)
  {
    if n > 0 {
      WeightOfSame(cs, a, b, n - 1);
    }
  }

  lemma {:induction false} WeightGrows(cs: seq<Option<Block>>, chosen: set<nat>, k: nat, n: nat)
    requires k <= n <= |cs|
    ensures Weight(cs, chosen, k) <= Weight(cs, chosen, n)
  {
    if k < n {
      WeightGrows(cs, chosen, k, n - 1);
    }
  }

  /** Whatever is shown stays under the cap, unless nothing is. */
  lemma {:induction false} GreedyFits(cs: seq<Option<Block>>, cap: int, chosen: set<nat>, n: nat)
    requires Greedy(cs, cap, chosen) && n <= |cs|
    ensures Weight(cs, chosen, n) <= cap || Chosen(cs, chosen, n) == []
    ensures Weight(cs, chosen, n) <= cap || Weight(cs, chosen, n) == 0
  {
    if n > 0 {
      GreedyFits(cs, cap, chosen, n - 1);
      assert n - 1 in chosen <==> FitsAfter(cs, cap, chosen, n - 1);
    }
  }

  /** The bytes of a list of blocks. */
  ghost function TotalBytes(blocks: seq<Block>): nat {
    if blocks == [] then 0 else TotalBytes(blocks[..|blocks| - 1]) + |blocks[|blocks| - 1].content|
  }

  /** The bytes of a list are those of its blocks together. */
  lemma {:induction false} TotalBytesJoins(a: seq<Block>, b: seq<Block>, block: Block)
    ensures TotalBytes([block]) == |block.content| && TotalBytes(a + b) == TotalBytes(a) + TotalBytes(b)
  {
    assert [block][..0] == [];
    if b == [] {
      assert a + b == a;
    } else {
      assert (a + b)[..|a + b| - 1] == a + b[..|b| - 1];
      TotalBytesJoins(a, b[..|b| - 1], block);
    }
  }

  lemma {:induction false} WeightIsTotal(cs: seq<Option<Block>>, chosen: set<nat>, n: nat)
    requires n <= |cs|
    ensures TotalBytes(Chosen(cs, chosen, n)) == Weight(cs, chosen, n)
  {
    if n > 0 {
      WeightIsTotal(cs, chosen, n - 1);
      if n - 1 in chosen && cs[n - 1].Some? {
        var before := Chosen(cs, chosen, n - 1);
        assert (before + [cs[n - 1].value])[..|before|] == before;
      } else {
        assert Chosen(cs, chosen, n) == Chosen(cs, chosen, n - 1);
      }
    }
  }

  /** No left-out attachment could be added to what is shown. */
  lemma NothingCanBeAdded(cs: seq<Option<Block>>, cap: int, chosen: set<nat>, i: nat)
    requires Greedy(cs, cap, chosen) && i < |cs| && cs[i].Some? && i !in chosen
    ensures Weight(cs, chosen, |cs|) + |cs[i].value.content| > cap
  {
    WeightGrows(cs, chosen, i, |cs|);
    assert !FitsAfter(cs, cap, chosen, i);
  }

  /** `a` and `b` agree before `i`, and only `a` has `i`. */
  ghost predicate PrefersAt(a: set<nat>, b: set<nat>, i: nat) {
    && i in a && i !in b
    && forall j: nat :: j < i ==> (j in a <==> j in b)
  }

  /** Two sets that agree before `n` either agree up to `m` or differ first at some position between. */
  lemma {:induction false} FirstDifference(a: set<nat>, b: set<nat>, n: nat, m: nat) returns (i: nat)
    requires n <= m && forall j: nat :: j < n ==> (j in a <==> j in b)
    ensures n <= i <= m && forall j: nat :: j < i ==> (j in a <==> j in b)
    ensures i < m ==> (i in a <==> i !in b)
    decreases m - n
  {
    if n == m || (n in a <==> n !in b) {
      i := n;
    } else {
      i := FirstDifference(a, b, n + 1, m);
    }
  }

  /**
   The greedy choice puts earlier attachments first: against every other choice of eligible
   attachments under the cap, the first attachment on which they differ is one it shows.
   */
  lemma EarlierAttachmentsWin(cs: seq<Option<Block>>, cap: int, chosen: set<nat>, other: set<nat>)
    requires Greedy(cs, cap, chosen)
    requires OnlyEligible(cs, other) && Weight(cs, other, |cs|) <= cap && other != chosen
    ensures exists i :: PrefersAt(chosen, other, i)
  {
    var i := FirstDifference(chosen, other, 0, |cs|);
    assert forall j: nat :: j in chosen ==> j < |cs| by {
      assert forall j: nat :: j in chosen ==> FitsAfter(cs, cap, chosen, j);
    }
    assert i < |cs|;
    WeightOfSame(cs, chosen, other, i);
    WeightGrows(cs, other, i + 1, |cs|);
    assert i in other ==> FitsAfter(cs, cap, chosen, i);
    assert PrefersAt(chosen, other, i);
  }

  lemma {:induction false} AgreeBefore(cs: seq<Option<Block>>, cap: int, a: set<nat>, b: set<nat>, n: nat)
    requires Greedy(cs, cap, a) && Greedy(cs, cap, b) && n <= |cs|
    ensures forall j: nat :: j < n ==> (j in a <==> j in b)
  {
    if n > 0 {
      AgreeBefore(cs, cap, a, b, n - 1);
      WeightOfSame(cs, a, b, n - 1);
      assert FitsAfter(cs, cap, a, n - 1) <==> FitsAfter(cs, cap, b, n - 1);
    }
  }

  /** There is one greedy choice. */
  lemma GreedyIsUnique(cs: seq<Option<Block>>, cap: int, a: set<nat>, b: set<nat>)
    requires Greedy(cs, cap, a) && Greedy(cs, cap, b)
    ensures a == b
  {
    AgreeBefore(cs, cap, a, b, |cs|);
    forall i: nat
      ensures i in a <==> i in b
    {
      assert FitsAfter(cs, cap, a, i) <==> i in a;
      assert FitsAfter(cs, cap, b, i) <==> i in b;
    }
  }

  /** A block shows one attachment read back through one of the first ids, within the limits of its kind. */
  ghost predicate ShowsStored(config: Config, repository: Repository, ids: seq<string>, block: Block) {
    exists i ::
      0 <= i < SliceLength(|ids|, config.maxAttachments) && ShowsRead(config, repository, repository.get(ids[i]), block)
  }

  ghost predicate ShowsRead(config: Config, repository: Repository, read: Lookup, block: Block) {
    && read.Found?
    && read.id == block.attachmentId
    && read.record.content == Some(block.content)
    && read.record.row.contentTypeSniffed == Some(block.mediaType)
    && read.record.row.digest == block.digest
    && match block.kind
       case Image => block.mediaType in {"image/jpeg", "image/png"} && |block.content| <= config.maxImageBytes
       case Document =>
         && block.mediaType == "application/pdf"
         && repository.pageCount(block.content).Some?
         && repository.pageCount(block.content).value <= config.maxPdfPages
  }

  /**
   Which attachments may be shown: an id stands for a block exactly when it reads a stored attachment
   whose contents the block shows unchanged, an image within the size or a PDF within the pages.
   */
  lemma EligibleExactly(config: Config, repository: Repository, rawId: string, block: Block)
    ensures Eligible(config, repository, rawId) == Some(block) <==>
      ShowsRead(config, repository, repository.get(rawId), block)
  {
  }

  /** Only stored attachments within the limits are shown, unchanged and under their own id. */
  lemma {:induction false} OnlyStoredIsShown(
    config: Config, repository: Repository, ids: seq<string>, chosen: set<nat>, n: nat)
    requires n <= |Candidates(config, repository, ids)|
    ensures forall block :: block in Chosen(Candidates(config, repository, ids), chosen, n) ==>
      ShowsStored(config, repository, ids, block)
  {
    if n > 0 {
      OnlyStoredIsShown(config, repository, ids, chosen, n - 1);
      var candidate := Candidates(config, repository, ids)[n - 1];
      assert candidate == Eligible(config, repository, ids[n - 1]);
      if candidate.Some? {
        assert ShowsRead(config, repository, repository.get(ids[n - 1]), candidate.value);
      }
    }
  }

  // ---------- The loop ----------

  /** The blocks are those of the greedy choice among the first ids. */
  ghost predicate IsSelection(config: Config, cs: seq<Option<Block>>, blocks: seq<Block>) {
    exists chosen: set<nat> :: Greedy(cs, config.maxPayloadBytes, chosen) && blocks == Chosen(cs, chosen, |cs|)
  }

  /** The greedy rule, for the candidates before `n`. */
  ghost predicate GreedyBefore(cs: seq<Option<Block>>, cap: int, chosen: set<nat>, n: nat) {
    && n <= |cs|
    && forall i: nat {:trigger FitsAfter(cs, cap, chosen, i)} :: i in chosen <==> i < n && FitsAfter(cs, cap, chosen, i)
  }

  lemma FitsTheSame(cs: seq<Option<Block>>, cap: int, a: set<nat>, b: set<nat>, i: nat)
    requires forall j: nat :: j < i ==> (j in a <==> j in b)
    ensures FitsAfter(cs, cap, a, i) <==> FitsAfter(cs, cap, b, i)
  {
    if i <= |cs| {
      WeightOfSame(cs, a, b, i);
    }
  }

  lemma GreedyStep(cs: seq<Option<Block>>, cap: int, chosen: set<nat>, n: nat, next: set<nat>)
    requires GreedyBefore(cs, cap, chosen, n) && n < |cs|
    requires next == if FitsAfter(cs, cap, chosen, n) then chosen + {n} else chosen
    ensures GreedyBefore(cs, cap, next, n + 1)
    ensures Weight(cs, next, n) == Weight(cs, chosen, n) && Chosen(cs, next, n) == Chosen(cs, chosen, n)
  {
    forall i: nat
      ensures i in next <==> i < n + 1 && FitsAfter(cs, cap, next, i)
    {
      assert i in chosen <==> FitsAfter(cs, cap, chosen, i) && i < n;
      if i <= n {
        FitsTheSame(cs, cap, next, chosen, i);
      }
    }
    WeightOfSame(cs, next, chosen, n);
  }

  lemma BeforeAll(cs: seq<Option<Block>>, cap: int, chosen: set<nat>)
    requires GreedyBefore(cs, cap, chosen, |cs|)
    ensures Greedy(cs, cap, chosen)
  {
    forall i: nat
      ensures i in chosen <==> FitsAfter(cs, cap, chosen, i)
    {
    }
  }

  method LoadAttachmentBlocks(config: Config, repository: Option<Repository>, ids: seq<string>)
    returns (blocks: seq<Block>)
    ensures repository.None? ==> blocks == []
    ensures repository.Some? ==> IsSelection(config, Candidates(config, repository.value, ids), blocks)
    ensures TotalBytes(blocks) <= config.maxPayloadBytes || blocks == []
  {
    if repository.None? {
      return [];
    }
    var slice := ids[..SliceLength(|ids|, config.maxAttachments)];
    ghost var cs := Candidates(config, repository.value, ids);
    var totalBytes := 0;
    blocks := [];
    ghost var chosen: set<nat> := {};
    for n := 0 to |slice|
      invariant GreedyBefore(cs, config.maxPayloadBytes, chosen, n)
      invariant totalBytes == Weight(cs, chosen, n)
      invariant blocks == Chosen(cs, chosen, n)
    {
      ghost var before := chosen;
      assert cs[n] == Eligible(config, repository.value, slice[n]);
      match repository.value.get(slice[n]) {
        case Malformed =>
        case Missing =>
        case Found(id, record) =>
          var block := BuildBlock(config, repository.value, id, record);
          if block.Some? && totalBytes + |record.content.value| <= config.maxPayloadBytes {
            totalBytes := totalBytes + |record.content.value|;
            blocks := blocks + [block.value];
            chosen := chosen + {n};
          }
      }
      GreedyStep(cs, config.maxPayloadBytes, before, n, chosen);
    }
    BeforeAll(cs, config.maxPayloadBytes, chosen);
    GreedyFits(cs, config.maxPayloadBytes, chosen, |cs|);
    WeightIsTotal(cs, chosen, |cs|);
  }
}
