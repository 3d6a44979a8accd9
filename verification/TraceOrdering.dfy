/**
 The chronological order of trace nodes in `packages/observability`: nodes are sorted by one
 string, `observedAt|sequence|kind`, with the sequence padded to ten digits. The order meant
 is the order of the triple (observedAt, sequence, kind).
 */
module TraceOrdering {
  import opened Wrappers
  import opened Text
  import opened StableSort

  const SEQUENCE_WIDTH: nat := 10

  /** A trace node as the sort sees it; `body` stands for everything the key does not read. */
  datatype TraceNode = TraceNode(kind: string, observedAt: Option<string>, sequence: Option<nat>, body: int)
  {
    function Moment(): string {
      match observedAt
      case Some(at) => at
      case None => ""
    }

    function Sequence(): nat {
      match sequence
      case Some(n) => n
      case None => 0
    }

    function PaddedSequence(): string { ZeroPad(Decimal(Sequence()), SEQUENCE_WIDTH) }

    function SortKey(): string { Moment() + "|" + PaddedSequence() + "|" + kind }
  }

  /** The order the key stands for. */
  predicate TupleBefore(a: TraceNode, b: TraceNode) {
    || Less(a.Moment(), b.Moment())
    || (a.Moment() == b.Moment() && a.Sequence() < b.Sequence())
    || (a.Moment() == b.Moment() && a.Sequence() == b.Sequence() && Less(a.kind, b.kind))
  }

  function KeyBefore(): (TraceNode, TraceNode) -> bool {
    ByKey((n: TraceNode) => n.SortKey())
  }

  /** Neither moment is a proper beginning of the other. */
  predicate ComparableMoments(a: TraceNode, b: TraceNode) {
    PrefixRelated(a.Moment(), b.Moment()) ==> a.Moment() == b.Moment()
  }

  /** The sequence fits into the padding. */
  predicate FitsPadding(n: TraceNode) { n.Sequence() < PowerOfTen(SEQUENCE_WIDTH) }

  /** Every character sorts before the separator, as in an ISO-8601 timestamp. */
  predicate BelowBar(s: string) { forall i :: 0 <= i < |s| ==> s[i] < '|' }

  // ---------- One pair of nodes ----------

  lemma PaddedOrder(a: TraceNode, b: TraceNode)
    requires |a.PaddedSequence()| == |b.PaddedSequence()|
    ensures Less(a.PaddedSequence(), b.PaddedSequence()) <==> a.Sequence() < b.Sequence()
    ensures a.PaddedSequence() == b.PaddedSequence() <==> a.Sequence() == b.Sequence()
  {
    NumberOfDecimal(a.Sequence());
    NumberOfDecimal(b.Sequence());
    NumberOfZeroPad(Decimal(a.Sequence()), SEQUENCE_WIDTH);
    NumberOfZeroPad(Decimal(b.Sequence()), SEQUENCE_WIDTH);
    EqualLengthNumerals(a.PaddedSequence(), b.PaddedSequence());
  }

  lemma FitsPaddingWidth(a: TraceNode)
    requires FitsPadding(a)
    ensures |a.PaddedSequence()| == SEQUENCE_WIDTH
  {
    DecimalLength(a.Sequence(), SEQUENCE_WIDTH);
  }

  /** Key order and triple order agree on nodes with comparable moments and equal widths. */
  lemma KeyRefinesTuple(a: TraceNode, b: TraceNode)
    requires ComparableMoments(a, b)
    requires |a.PaddedSequence()| == |b.PaddedSequence()|
    ensures Less(a.SortKey(), b.SortKey()) <==> TupleBefore(a, b)
  {
    var (m, p, k) := (a.Moment(), a.PaddedSequence(), a.kind);
    var (m', p', k') := (b.Moment(), b.PaddedSequence(), b.kind);
    PaddedOrder(a, b);
    LessTrichotomy(m, m');
    assert a.SortKey() == m + ("|" + p + "|" + k) && b.SortKey() == m' + ("|" + p' + "|" + k');
    if m != m' {
      LessDecidedEarly(m, "|" + p + "|" + k, m', "|" + p' + "|" + k');
    } else {
      assert a.SortKey() == (m + "|") + (p + ("|" + k)) && b.SortKey() == (m + "|") + (p' + ("|" + k'));
      LessAfterCommonPrefix(m + "|", p + ("|" + k), p' + ("|" + k'));
      if p != p' {
        EqualLengthPrefix(p, p');
        LessDecidedEarly(p, "|" + k, p', "|" + k');
      } else {
        assert p + ("|" + k) == (p + "|") + k && p + ("|" + k') == (p + "|") + k';
        LessAfterCommonPrefix(p + "|", k, k');
      }
    }
  }

  /**
   A moment that is a proper beginning of another one (a missing `observedAt` is the beginning
   of every moment) comes first in the triple order and last in the key order.
   */
  lemma ShorterMomentSortsLast(a: TraceNode, b: TraceNode)
    requires a.Moment() < b.Moment() && BelowBar(b.Moment())
    ensures TupleBefore(a, b) && !TupleBefore(b, a)
    ensures Less(b.SortKey(), a.SortKey()) && !Less(a.SortKey(), b.SortKey())
  {
    var m := a.Moment();
    var rest := b.Moment()[|m|..];
    assert m + "" == m && m + rest == b.Moment();
    LessAfterCommonPrefix(m, "", rest);
    LessTrichotomy(a.Moment(), b.Moment());
    var x := "|" + a.PaddedSequence() + "|" + a.kind;
    var y := rest + "|" + b.PaddedSequence() + "|" + b.kind;
    assert a.SortKey() == m + x && b.SortKey() == m + y;
    assert y[0] == b.Moment()[|m|];
    LessAfterCommonPrefix(m, y, x);
    LessTrichotomy(a.SortKey(), b.SortKey());
  }

  // ---------- Whole bundles ----------

  predicate AllFitPadding(nodes: seq<TraceNode>) { forall i :: 0 <= i < |nodes| ==> FitsPadding(nodes[i]) }

  predicate AllBelowBar(nodes: seq<TraceNode>) {
    forall i :: 0 <= i < |nodes| ==> BelowBar(nodes[i].Moment())
  }

  predicate PrefixFree(nodes: seq<TraceNode>) {
    forall i, j :: 0 <= i < |nodes| && 0 <= j < |nodes| ==> ComparableMoments(nodes[i], nodes[j])
  }

  /** The key orders every pair of the bundle as the triple does. */
  ghost predicate KeysAgree(nodes: seq<TraceNode>) {
    forall i, j :: 0 <= i < |nodes| && 0 <= j < |nodes| ==>
      (KeyBefore()(nodes[i], nodes[j]) <==> TupleBefore(nodes[i], nodes[j]))
  }

  /**
   For sequences below 10^10 and timestamp text, the key is right for a bundle exactly when no
   moment in it is a proper beginning of another.
   */
  lemma KeysAgreeExactly(nodes: seq<TraceNode>)
    requires AllFitPadding(nodes) && AllBelowBar(nodes)
    ensures KeysAgree(nodes) <==> PrefixFree(nodes)
  {
    forall i, j | 0 <= i < |nodes| && 0 <= j < |nodes|
      ensures ComparableMoments(nodes[i], nodes[j]) ==>
        (KeyBefore()(nodes[i], nodes[j]) <==> TupleBefore(nodes[i], nodes[j]))
      ensures !ComparableMoments(nodes[i], nodes[j]) ==>
        !(KeyBefore()(nodes[i], nodes[j]) <==> TupleBefore(nodes[i], nodes[j]))
    {
      var (a, b) := (nodes[i], nodes[j]);
      FitsPaddingWidth(a);
      FitsPaddingWidth(b);
      if ComparableMoments(a, b) {
        KeyRefinesTuple(a, b);
      } else if a.Moment() < b.Moment() {
        ShorterMomentSortsLast(a, b);
      } else {
        ShorterMomentSortsLast(b, a);
      }
    }
  }

  /** Equal-length moments, as one timestamp format gives them, are prefix free. */
  lemma EqualLengthMoments(nodes: seq<TraceNode>)
    requires forall i, j :: 0 <= i < j < |nodes| ==> |nodes[i].Moment()| == |nodes[j].Moment()|
    ensures PrefixFree(nodes)
  {
    forall i, j | 0 <= i < |nodes| && 0 <= j < |nodes|
      ensures ComparableMoments(nodes[i], nodes[j])
    {
      assert i < j || j < i || i == j;
      EqualLengthPrefix(nodes[i].Moment(), nodes[j].Moment());
    }
  }

  lemma TupleAsymmetric()
    ensures Asymmetric(TupleBefore)
  {
    forall a, b | TupleBefore(a, b)
      ensures !TupleBefore(b, a)
    {
      LessTrichotomy(a.Moment(), b.Moment());
      LessTrichotomy(a.kind, b.kind);
    }
  }

  /** On a prefix-free bundle the two orders have the same stable sorts. */
  lemma SortKeyRefinement(nodes: seq<TraceNode>, r: seq<TraceNode>)
    requires AllFitPadding(nodes) && PrefixFree(nodes)
    ensures StableSortOf(nodes, KeyBefore(), r) <==> StableSortOf(nodes, TupleBefore, r)
  {
    forall i, j | 0 <= i < |nodes| && 0 <= j < |nodes|
      ensures Stably(nodes, KeyBefore(), i, j) <==> Stably(nodes, TupleBefore, i, j)
    {
      FitsPaddingWidth(nodes[i]);
      FitsPaddingWidth(nodes[j]);
      KeyRefinesTuple(nodes[i], nodes[j]);
      KeyRefinesTuple(nodes[j], nodes[i]);
    }
    forall p | IsPermutation(|nodes|, p)
      ensures Orders(nodes, KeyBefore(), p) <==> Orders(nodes, TupleBefore, p)
    {
    }
  }

  /** The key sort of a bundle is the triple sort exactly when no moment in it is a proper beginning of another. */
  lemma RenderedExactly(nodes: seq<TraceNode>, r: seq<TraceNode>)
    requires AllFitPadding(nodes) && AllBelowBar(nodes) && StableSortOf(nodes, KeyBefore(), r)
    ensures StableSortOf(nodes, TupleBefore, r) <==> PrefixFree(nodes)
  {
    if PrefixFree(nodes) {
      SortKeyRefinement(nodes, r);
    } else {
      var i, j := PrefixPair(nodes);
      ShorterMomentSortsLast(nodes[i], nodes[j]);
      if StableSortOf(nodes, TupleBefore, r) {
        NoDisagreement(nodes, KeyBefore(), TupleBefore, r, j, i);
        assert false;
      }
    }
  }

  /** Two nodes of which the first has a moment that properly begins the second one's. */
  lemma PrefixPair(nodes: seq<TraceNode>) returns (i: nat, j: nat)
    requires !PrefixFree(nodes)
    ensures i < |nodes| && j < |nodes| && nodes[i].Moment() < nodes[j].Moment()
  {
    var k, l :| 0 <= k < |nodes| && 0 <= l < |nodes| && !ComparableMoments(nodes[k], nodes[l]);
    if nodes[k].Moment() < nodes[l].Moment() {
      i, j := k, l;
    } else {
      i, j := l, k;
    }
  }

  // ---------- The rendered order in terms of the nodes ----------

  /** The timestamp of a node, "" when it has none. */
  ghost function At(n: TraceNode): string { if n.observedAt.Some? then n.observedAt.value else "" }

  /** The sequence number of a node, 0 when it has none. */
  ghost function Number(n: TraceNode): nat { if n.sequence.Some? then n.sequence.value else 0 }

  /** Timestamps ascend, then sequence numbers, then kinds. */
  ghost predicate Chronological(r: seq<TraceNode>) {
    forall x, y :: 0 <= x < y < |r| ==>
      && !Less(At(r[y]), At(r[x]))
      && (At(r[x]) == At(r[y]) ==> Number(r[x]) <= Number(r[y]))
      && (At(r[x]) == At(r[y]) && Number(r[x]) == Number(r[y]) ==> !Less(r[y].kind, r[x].kind))
  }

  /** No timestamp properly begins another; a missing one is "", which begins every other. */
  ghost predicate TimestampsComparable(nodes: seq<TraceNode>) {
    forall i, j :: 0 <= i < |nodes| && 0 <= j < |nodes| && At(nodes[i]) <= At(nodes[j]) ==> At(nodes[i]) == At(nodes[j])
  }

  /** Sequence numbers have ten digits at most, and timestamps no character from the separator on. */
  ghost predicate Keyed(nodes: seq<TraceNode>) {
    forall i :: 0 <= i < |nodes| ==>
      Number(nodes[i]) < 10_000_000_000 && forall k :: 0 <= k < |At(nodes[i])| ==> At(nodes[i])[k] < '|'
  }

  lemma TenDigits()
    ensures PowerOfTen(SEQUENCE_WIDTH) == 10_000_000_000
  {
    assert PowerOfTen(5) == 100_000;
    assert PowerOfTen(8) == 1000 * PowerOfTen(5);
    assert PowerOfTen(10) == 100 * PowerOfTen(8);
  }

  lemma KeyedFits(nodes: seq<TraceNode>)
    requires Keyed(nodes)
    ensures AllFitPadding(nodes) && AllBelowBar(nodes)
    ensures TimestampsComparable(nodes) <==> PrefixFree(nodes)
  {
    TenDigits();
    assert forall i :: 0 <= i < |nodes| ==>
      At(nodes[i]) == nodes[i].Moment() && Number(nodes[i]) == nodes[i].Sequence();
  }

  /**
   In terms of the nodes themselves: the rendered list is chronological exactly when the timestamps of
   the bundle are comparable.
   */
  lemma ChronologicalExactly(nodes: seq<TraceNode>, r: seq<TraceNode>)
    requires Keyed(nodes) && StableSortOf(nodes, KeyBefore(), r)
    ensures Chronological(r) <==> TimestampsComparable(nodes)
  {
    KeyedFits(nodes);
    if PrefixFree(nodes) {
      SortKeyRefinement(nodes, r);
      TupleSortIsChronological(nodes, r);
    } else {
      var i, j := PrefixPair(nodes);
      ShorterMomentSortsLast(nodes[i], nodes[j]);
      var x, y := SortedPositions(nodes, KeyBefore(), r, j, i);
      LessTrichotomy(nodes[i].Moment(), nodes[j].Moment());
      assert Less(At(r[y]), At(r[x]));
    }
  }

  lemma TupleSortIsChronological(nodes: seq<TraceNode>, r: seq<TraceNode>)
    requires StableSortOf(nodes, TupleBefore, r)
    ensures Chronological(r)
  {
    var p :| Orders(nodes, TupleBefore, p) && Picks(nodes, p, r);
    forall x, y | 0 <= x < y < |r|
      ensures !TupleBefore(r[y], r[x])
    {
      assert Stably(nodes, TupleBefore, p[x], p[y]);
      LessTrichotomy(r[x].Moment(), r[y].Moment());
      LessTrichotomy(r[x].kind, r[y].kind);
    }
  }

  /** The rendered order: the one stable sort by the triple, exactly when the bundle is prefix free. */
  method RenderableTraceNodes(nodes: seq<TraceNode>) returns (r: seq<TraceNode>)
    ensures StableSortOf(nodes, KeyBefore(), r) && multiset(r) == multiset(nodes)
    ensures AllFitPadding(nodes) && PrefixFree(nodes) ==> StableSortOf(nodes, TupleBefore, r)
    ensures AllFitPadding(nodes) && PrefixFree(nodes) ==>
      forall s :: StableSortOf(nodes, TupleBefore, s) ==> s == r
    ensures AllFitPadding(nodes) && AllBelowBar(nodes) ==>
      (StableSortOf(nodes, TupleBefore, r) <==> PrefixFree(nodes))
    ensures Keyed(nodes) ==> (Chronological(r) <==> TimestampsComparable(nodes))
  {
    r := StableSortBy(nodes, (n: TraceNode) => n.SortKey());
    StableSortRearranges(nodes, KeyBefore(), r);
    if AllFitPadding(nodes) && AllBelowBar(nodes) {
      RenderedExactly(nodes, r);
    }
    if Keyed(nodes) {
      ChronologicalExactly(nodes, r);
    }
    if AllFitPadding(nodes) && PrefixFree(nodes) {
      SortKeyRefinement(nodes, r);
      TupleAsymmetric();
      forall s | StableSortOf(nodes, TupleBefore, s)
        ensures s == r
      {
        StableSortUnique(nodes, TupleBefore, s, r);
      }
    }
  }

  // ---------- The documented order ----------

  /**
   The order the documentation describes: by observedAt, then by sequence. Its third tie break is
   `payload.observedAt`, the value the order began with, so that further ties stay in input order.
   */
  predicate DocumentedBefore(a: TraceNode, b: TraceNode) {
    || Less(a.Moment(), b.Moment())
    || (a.Moment() == b.Moment() && a.Sequence() < b.Sequence())
  }

  predicate Tie(a: TraceNode, b: TraceNode) {
    a.Moment() == b.Moment() && a.Sequence() == b.Sequence()
  }

  /** Nodes with one timestamp and one sequence are given in the order of their kinds. */
  predicate KindsInOrder(nodes: seq<TraceNode>) {
    forall i, j :: 0 <= i < j < |nodes| && Tie(nodes[i], nodes[j]) ==> !Less(nodes[j].kind, nodes[i].kind)
  }

  lemma DocumentedStably(nodes: seq<TraceNode>, i: int, j: int)
    requires AllFitPadding(nodes) && PrefixFree(nodes) && KindsInOrder(nodes)
    requires 0 <= i < |nodes| && 0 <= j < |nodes| && i != j
    requires Stably(nodes, KeyBefore(), i, j)
    ensures Stably(nodes, DocumentedBefore, i, j)
  {
    FitsPaddingWidth(nodes[i]);
    FitsPaddingWidth(nodes[j]);
    KeyRefinesTuple(nodes[i], nodes[j]);
    KeyRefinesTuple(nodes[j], nodes[i]);
    LessTrichotomy(nodes[i].Moment(), nodes[j].Moment());
    LessTrichotomy(nodes[i].kind, nodes[j].kind);
  }

  /** A list that is sorted both ways was given with its ties in the order of their kinds. */
  lemma TiesWereInOrder(nodes: seq<TraceNode>, r: seq<TraceNode>, i: nat, j: nat)
    requires AllFitPadding(nodes) && StableSortOf(nodes, KeyBefore(), r) && StableSortOf(nodes, DocumentedBefore, r)
    requires i < j < |nodes| && Tie(nodes[i], nodes[j])
    ensures !Less(nodes[j].kind, nodes[i].kind)
  {
    LessIrreflexive(nodes[i].Moment());
    var x, y := SortedPositions(nodes, DocumentedBefore, r, i, j);
    var p :| Orders(nodes, KeyBefore(), p) && Picks(nodes, p, r);
    assert Stably(nodes, KeyBefore(), p[x], p[y]);
    FitsPaddingWidth(nodes[i]);
    FitsPaddingWidth(nodes[j]);
    KeyRefinesTuple(nodes[i], nodes[j]);
    KeyRefinesTuple(nodes[j], nodes[i]);
    LessTrichotomy(nodes[i].kind, nodes[j].kind);
  }

  /**
   The rendered list is in the documented order exactly when no timestamp properly begins another
   and ties were given in the order of their kinds.
   */
  lemma DocumentedExactly(nodes: seq<TraceNode>, r: seq<TraceNode>)
    requires AllFitPadding(nodes) && AllBelowBar(nodes) && StableSortOf(nodes, KeyBefore(), r)
    ensures StableSortOf(nodes, DocumentedBefore, r) <==> PrefixFree(nodes) && KindsInOrder(nodes)
  {
    if StableSortOf(nodes, DocumentedBefore, r) {
      forall i, j | 0 <= i < j < |nodes| && Tie(nodes[i], nodes[j])
        ensures !Less(nodes[j].kind, nodes[i].kind)
      {
        TiesWereInOrder(nodes, r, i, j);
      }
      DocumentedPrefixFree(nodes, r);
    }
    if PrefixFree(nodes) && KindsInOrder(nodes) {
      var p :| Orders(nodes, KeyBefore(), p) && Picks(nodes, p, r);
      forall i, j | 0 <= i < j < |p|
        ensures Stably(nodes, DocumentedBefore, p[i], p[j])
      {
        DocumentedStably(nodes, p[i], p[j]);
      }
      assert Orders(nodes, DocumentedBefore, p);
    }
  }

  lemma DocumentedPrefixFree(nodes: seq<TraceNode>, r: seq<TraceNode>)
    requires AllBelowBar(nodes) && StableSortOf(nodes, KeyBefore(), r) && StableSortOf(nodes, DocumentedBefore, r)
    ensures PrefixFree(nodes)
  {
    if !PrefixFree(nodes) {
      var i, j := PrefixPair(nodes);
      ShorterMomentSortsLast(nodes[i], nodes[j]);
      LessTrichotomy(nodes[i].Moment(), nodes[j].Moment());
      NoDisagreement(nodes, KeyBefore(), DocumentedBefore, r, j, i);
      assert false;
    }
  }

  /** Two nodes of one time and sequence, given in the reverse order of their kinds, are exchanged. */
  lemma KindBreaksTies(at: string, body: int, r: seq<TraceNode>)
    requires
      var nodes := [TraceNode("b", Some(at), Some(0), body), TraceNode("a", Some(at), Some(0), body)];
      StableSortOf(nodes, KeyBefore(), r)
    ensures
      var nodes := [TraceNode("b", Some(at), Some(0), body), TraceNode("a", Some(at), Some(0), body)];
      r == [nodes[1], nodes[0]] && !StableSortOf(nodes, DocumentedBefore, r)
  {
    var nodes := [TraceNode("b", Some(at), Some(0), body), TraceNode("a", Some(at), Some(0), body)];
    assert nodes[0].SortKey() == (at + "|" + nodes[0].PaddedSequence() + "|") + "b";
    assert nodes[1].SortKey() == (at + "|" + nodes[1].PaddedSequence() + "|") + "a";
    LessAfterCommonPrefix(at + "|" + nodes[0].PaddedSequence() + "|", "a", "b");
    LessAfterCommonPrefix(at + "|" + nodes[0].PaddedSequence() + "|", "b", "a");
    assert KeyBefore()(nodes[1], nodes[0]) && !KeyBefore()(nodes[0], nodes[1]);
    var x, y := SortedPositions(nodes, KeyBefore(), r, 1, 0);
    StableSortRearranges(nodes, KeyBefore(), r);
    if StableSortOf(nodes, DocumentedBefore, r) {
      LessIrreflexive(at);
      var z, w := SortedPositions(nodes, DocumentedBefore, r, 0, 1);
      assert false;
    }
  }

  /** In every output, a node without a timestamp comes after each node that has one. */
  lemma MissingMomentRendersLast(nodes: seq<TraceNode>, r: seq<TraceNode>, i: nat, j: nat)
    requires AllBelowBar(nodes) && StableSortOf(nodes, KeyBefore(), r)
    requires i < |r| && j < |r| && r[i].Moment() == "" && r[j].Moment() != ""
    ensures j < i
  {
    var p :| Orders(nodes, KeyBefore(), p) && Picks(nodes, p, r);
    assert BelowBar(nodes[p[j]].Moment());
    assert i < j ==> Stably(nodes, KeyBefore(), p[i], p[j]);
    ShorterMomentSortsLast(r[i], r[j]);
  }
}
