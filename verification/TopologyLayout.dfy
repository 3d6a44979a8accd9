/**
 The topology layout of `packages/topology`: nodes sorted by one string key are placed left to
 right in the row of their kind.
 */
module TopologyLayout {
  import opened Wrappers
  import opened Text
  import opened StableSort

  datatype NodeKind = Supervisor | Agent | Broadcast | System | External

  /** `caption` is the label of the node; `body` stands for the data the layout does not read. */
  datatype TopologyNode = TopologyNode(nodeId: string, kind: NodeKind, caption: string, body: int)
  {
    function Row(): nat
    {
      match kind
      case Supervisor => 0
      case Agent => 1
      case Broadcast => 1
      case System => 2
      case External => 2
    }

    function SortKey(): string { [DigitChar(Row())] + ":" + caption + ":" + nodeId }
  }

  datatype TopologyEdge = TopologyEdge(edgeId: string, kind: string, source: string, target: string, body: int)
  {
    function SortKey(): string { kind + ":" + source + ":" + target + ":" + edgeId }
  }

  datatype LayoutOptions = LayoutOptions(
    columnWidth: Option<real>, rowHeight: Option<real>, originX: Option<real>, originY: Option<real>)

  /** The measures of a layout, and how arithmetic rounds: each operation to the nearest double. */
  datatype Grid = Grid(columnWidth: real, rowHeight: real, originX: real, originY: real, round: real -> real)
  {
    function X(column: nat): real { round(originX + round(Times(column, columnWidth))) }

    function Y(row: nat): real { round(originY + round(Times(row, rowHeight))) }

    function ExactX(column: nat): real { originX + Times(column, columnWidth) }

    function ExactY(row: nat): real { originY + Times(row, rowHeight) }
  }

  function Times(n: nat, size: real): real { n as real * size }

  datatype Position = Position(x: real, y: real)

  datatype PositionedNode = PositionedNode(id: string, position: Position, data: TopologyNode)

  function OrElse(given: Option<real>, default: real): real {
    match given
    case Some(v) => v
    case None => default
  }

  function GridOf(options: LayoutOptions, round: real -> real): Grid {
    Grid(OrElse(options.columnWidth, 240.0), OrElse(options.rowHeight, 140.0),
         OrElse(options.originX, 0.0), OrElse(options.originY, 0.0), round)
  }

  function Place(grid: Grid, node: TopologyNode, column: nat): PositionedNode {
    PositionedNode(node.nodeId, Position(grid.X(column), grid.Y(node.Row())), node)
  }

  /** How many of the nodes belong to a row. */
  function RowCount(nodes: seq<TopologyNode>, row: nat): nat {
    if nodes == [] then 0
    else RowCount(nodes[..|nodes| - 1], row) + if nodes[|nodes| - 1].Row() == row then 1 else 0
  }

  /** The column of the node at position `i`: the nodes of its row in front of it. */
  function Column(nodes: seq<TopologyNode>, i: nat): nat
    requires i < |nodes|
  {
    RowCount(nodes[..i], nodes[i].Row())
  }

  /** The nodes, each placed in its column by the given function. */
  function PlacedBy(place: (TopologyNode, nat) -> PositionedNode, nodes: seq<TopologyNode>): seq<PositionedNode> {
    seq(|nodes|, i requires 0 <= i < |nodes| => place(nodes[i], Column(nodes, i)))
  }

  function PlaceOn(grid: Grid): (TopologyNode, nat) -> PositionedNode {
    (node: TopologyNode, column: nat) => Place(grid, node, column)
  }

  function Placed(grid: Grid, nodes: seq<TopologyNode>): seq<PositionedNode> {
    PlacedBy(PlaceOn(grid), nodes)
  }

  function NodeKey(): TopologyNode -> string { (n: TopologyNode) => n.SortKey() }

  function EdgeKey(): TopologyEdge -> string { (e: TopologyEdge) => e.SortKey() }

  /** `out` is a layout of `nodes`: a stable key order of them, placed row by row. */
  ghost predicate IsLayout(grid: Grid, nodes: seq<TopologyNode>, out: seq<PositionedNode>) {
    exists sorted :: StableSortOf(nodes, ByKey(NodeKey()), sorted) && out == Placed(grid, sorted)
  }

  method LayoutTopology(
    nodes: seq<TopologyNode>, edges: seq<TopologyEdge>, options: LayoutOptions, round: real -> real)
    returns (positioned: seq<PositionedNode>, sortedEdges: seq<TopologyEdge>)
    ensures IsLayout(GridOf(options, round), nodes, positioned)
    ensures Drawn(nodes, options, round, positioned)
    ensures StableSortOf(edges, ByKey(EdgeKey()), sortedEdges) && multiset(sortedEdges) == multiset(edges)
    ensures forall i, j :: 0 <= i < j < |sortedEdges| ==>
      var (a, b) := (sortedEdges[i], sortedEdges[j]);
      !Less(b.kind + ":" + b.source + ":" + b.target + ":" + b.edgeId,
            a.kind + ":" + a.source + ":" + a.target + ":" + a.edgeId)
  {
    var grid := GridOf(options, round);
    var sortedNodes := StableSortBy(nodes, NodeKey());
    positioned := PlaceInRows(PlaceOn(grid), sortedNodes);
    sortedEdges := StableSortBy(edges, EdgeKey());
    DrawnInNumbers(nodes, options, round, sortedNodes);
    EdgesInOrder(edges, sortedEdges);
  }

  // ---------- The layout in numbers ----------

  /** Supervisors are in the top row, agents and broadcasts in the next one, all others below. */
  ghost function Level(kind: NodeKind): nat {
    if kind.Supervisor? then 0 else if kind == Agent || kind == Broadcast then 1 else 2
  }

  ghost function LevelText(kind: NodeKind): string {
    if kind.Supervisor? then "0" else if kind == Agent || kind == Broadcast then "1" else "2"
  }

  /**
   What a layout is, without the keys and counters that make it: the nodes, by row, label and id; each
   at the column of its rank among those of its row, at multiples of 240 and 140 from the origin
   unless other measures are given.
   */
  ghost predicate Drawn(
    nodes: seq<TopologyNode>, options: LayoutOptions, round: real -> real, positioned: seq<PositionedNode>)
  {
    var width := if options.columnWidth.Some? then options.columnWidth.value else 240.0;
    var height := if options.rowHeight.Some? then options.rowHeight.value else 140.0;
    var left := if options.originX.Some? then options.originX.value else 0.0;
    var top := if options.originY.Some? then options.originY.value else 0.0;
    exists sorted: seq<TopologyNode> ::
      && multiset(sorted) == multiset(nodes) && |positioned| == |sorted|
      && InLabelOrder(sorted)
      && forall i :: 0 <= i < |sorted| ==> DrawnAt(sorted, i, width, height, left, top, round, positioned[i])
  }

  ghost predicate DrawnAt(
    sorted: seq<TopologyNode>, i: nat, width: real, height: real, left: real, top: real, round: real -> real,
    node: PositionedNode)
    requires i < |sorted|
  {
    && node.data == sorted[i] && node.id == sorted[i].nodeId
    && node.position.x == round(left + round(Times(|InFront(sorted, i)|, width)))
    && node.position.y == round(top + round(Times(Level(sorted[i].kind), height)))
  }

  ghost predicate InLabelOrder(sorted: seq<TopologyNode>) {
    forall i, j :: 0 <= i < j < |sorted| ==>
      var (a, b) := (sorted[i], sorted[j]);
      !Less(LevelText(b.kind) + ":" + b.caption + ":" + b.nodeId, LevelText(a.kind) + ":" + a.caption + ":" + a.nodeId)
  }

  /** The nodes of the same row in front of position `i`. */
  ghost function InFront(sorted: seq<TopologyNode>, i: nat): set<nat>
    requires i < |sorted|
  {
    set j: nat | j < i && Level(sorted[j].kind) == Level(sorted[i].kind)
  }

  lemma LevelIsRow(node: TopologyNode)
    ensures node.Row() == Level(node.kind) && [DigitChar(node.Row())] == LevelText(node.kind)
  {
  }

  lemma {:induction false} CountedInSet(nodes: seq<TopologyNode>, row: nat)
    ensures RowCount(nodes, row) == |set j: nat | j < |nodes| && nodes[j].Row() == row|
  {
    if nodes != [] {
      var n := |nodes| - 1;
      CountedInSet(nodes[..n], row);
      var before := set j: nat | j < n && nodes[..n][j].Row() == row;
      var all := set j: nat | j < |nodes| && nodes[j].Row() == row;
      assert n !in before;
      assert all == before + if nodes[n].Row() == row then {n} else {};
    }
  }

  lemma ColumnIsRank(sorted: seq<TopologyNode>, i: nat)
    requires i < |sorted|
    ensures Column(sorted, i) == |InFront(sorted, i)|
  {
    CountedInSet(sorted[..i], sorted[i].Row());
    LevelIsRow(sorted[i]);
    forall j: nat | j < i
      ensures sorted[..i][j].Row() == sorted[i].Row() <==> Level(sorted[j].kind) == Level(sorted[i].kind)
    {
      LevelIsRow(sorted[j]);
    }
    assert InFront(sorted, i) == set j: nat | j < |sorted[..i]| && sorted[..i][j].Row() == sorted[i].Row();
  }

  lemma SortedInLabelOrder(nodes: seq<TopologyNode>, sorted: seq<TopologyNode>)
    requires StableSortOf(nodes, ByKey(NodeKey()), sorted)
    ensures InLabelOrder(sorted)
  {
    var p :| Orders(nodes, ByKey(NodeKey()), p) && Picks(nodes, p, sorted);
    forall i, j | 0 <= i < j < |sorted|
      ensures
        var (a, b) := (sorted[i], sorted[j]);
        !Less(LevelText(b.kind) + ":" + b.caption + ":" + b.nodeId,
              LevelText(a.kind) + ":" + a.caption + ":" + a.nodeId)
    {
      assert Stably(nodes, ByKey(NodeKey()), p[i], p[j]);
      LevelIsRow(sorted[i]);
      LevelIsRow(sorted[j]);
      LessTrichotomy(sorted[i].SortKey(), sorted[j].SortKey());
    }
  }

  lemma DrawnInNumbers(
    nodes: seq<TopologyNode>, options: LayoutOptions, round: real -> real, sorted: seq<TopologyNode>)
    requires StableSortOf(nodes, ByKey(NodeKey()), sorted)
    ensures Drawn(nodes, options, round, Placed(GridOf(options, round), sorted))
  {
    StableSortRearranges(nodes, ByKey(NodeKey()), sorted);
    SortedInLabelOrder(nodes, sorted);
    var grid := GridOf(options, round);
    forall i | 0 <= i < |sorted|
      ensures DrawnAt(sorted, i, grid.columnWidth, grid.rowHeight, grid.originX, grid.originY, round,
                      Placed(grid, sorted)[i])
    {
      NodeIsDrawn(grid, sorted, i);
    }
  }

  lemma NodeIsDrawn(grid: Grid, sorted: seq<TopologyNode>, i: nat)
    requires i < |sorted|
    ensures DrawnAt(sorted, i, grid.columnWidth, grid.rowHeight, grid.originX, grid.originY, grid.round,
                    Place(grid, sorted[i], Column(sorted, i)))
  {
    ColumnIsRank(sorted, i);
    LevelIsRow(sorted[i]);
  }

  lemma EdgesInOrder(edges: seq<TopologyEdge>, sorted: seq<TopologyEdge>)
    requires StableSortOf(edges, ByKey(EdgeKey()), sorted)
    ensures multiset(sorted) == multiset(edges)
    ensures forall i, j :: 0 <= i < j < |sorted| ==>
      var (a, b) := (sorted[i], sorted[j]);
      !Less(b.kind + ":" + b.source + ":" + b.target + ":" + b.edgeId,
            a.kind + ":" + a.source + ":" + a.target + ":" + a.edgeId)
  {
    StableSortRearranges(edges, ByKey(EdgeKey()), sorted);
    var p :| Orders(edges, ByKey(EdgeKey()), p) && Picks(edges, p, sorted);
    forall i, j | 0 <= i < j < |sorted|
      ensures !Less(sorted[j].SortKey(), sorted[i].SortKey())
    {
      assert Stably(edges, ByKey(EdgeKey()), p[i], p[j]);
      LessTrichotomy(sorted[i].SortKey(), sorted[j].SortKey());
    }
  }

  function Counted(rowCounters: map<nat, nat>, row: nat): nat {
    if row in rowCounters then rowCounters[row] else 0
  }

  /** The counters hold how many nodes each row has. */
  ghost predicate CountsRows(rowCounters: map<nat, nat>, nodes: seq<TopologyNode>) {
    forall row :: Counted(rowCounters, row) == RowCount(nodes, row)
  }

  lemma CountNext(rowCounters: map<nat, nat>, nodes: seq<TopologyNode>, node: TopologyNode)
    requires CountsRows(rowCounters, nodes)
    ensures CountsRows(rowCounters[node.Row() := Counted(rowCounters, node.Row()) + 1], nodes + [node])
  {
    var next := rowCounters[node.Row() := Counted(rowCounters, node.Row()) + 1];
    assert (nodes + [node])[..|nodes|] == nodes;
    forall row
      ensures Counted(next, row) == RowCount(nodes + [node], row)
    {
      assert Counted(rowCounters, row) == RowCount(nodes, row);
    }
  }

  /** The pass over the sorted nodes that counts up one column per row. */
  method PlaceInRows(place: (TopologyNode, nat) -> PositionedNode, sortedNodes: seq<TopologyNode>)
    returns (positioned: seq<PositionedNode>)
    ensures positioned == PlacedBy(place, sortedNodes)
  {
    var rowCounters: map<nat, nat> := map[];
    positioned := [];
    for i := 0 to |sortedNodes|
      invariant |positioned| == i
      invariant forall k :: 0 <= k < i ==>
        positioned[k] == place(sortedNodes[k], Column(sortedNodes, k))
      invariant CountsRows(rowCounters, sortedNodes[..i])
    {
      var node := sortedNodes[i];
      var row := node.Row();
      var column := Counted(rowCounters, row);
      CountNext(rowCounters, sortedNodes[..i], node);
      assert sortedNodes[..i + 1] == sortedNodes[..i] + [node];
      rowCounters := rowCounters[row := column + 1];
      positioned := positioned + [place(node, column)];
    }
    assert sortedNodes[..|sortedNodes|] == sortedNodes;
  }

  // ---------- Columns ----------

  lemma {:induction false} RowCountGrows(nodes: seq<TopologyNode>, i: nat, j: nat, row: nat)
    requires i <= j <= |nodes|
    ensures RowCount(nodes[..i], row) <= RowCount(nodes[..j], row)
    decreases j - i
  {
    if i < j {
      RowCountGrows(nodes, i, j - 1, row);
      assert nodes[..j][..j - 1] == nodes[..j - 1];
    }
  }

  /** Later in the same row means further right. */
  lemma ColumnsIncrease(nodes: seq<TopologyNode>, i: nat, j: nat)
    requires i < j < |nodes| && nodes[i].Row() == nodes[j].Row()
    ensures Column(nodes, i) < Column(nodes, j)
  {
    assert nodes[..i + 1][..i] == nodes[..i];
    RowCountGrows(nodes, i + 1, j, nodes[i].Row());
  }

  /** The columns in use in a row are exactly 0 up to the number of its nodes. */
  lemma {:induction false} ColumnsAreDense(nodes: seq<TopologyNode>, row: nat, c: nat)
    ensures c < RowCount(nodes, row) <==>
      exists i :: 0 <= i < |nodes| && nodes[i].Row() == row && Column(nodes, i) == c
  {
    if nodes != [] {
      var n := |nodes| - 1;
      var front := nodes[..n];
      ColumnsAreDense(front, row, c);
      forall i | 0 <= i < n
        ensures Column(front, i) == Column(nodes, i)
      {
        assert front[..i] == nodes[..i];
      }
      if c < RowCount(front, row) {
        var i :| 0 <= i < n && front[i].Row() == row && Column(front, i) == c;
        assert nodes[i].Row() == row && Column(nodes, i) == c;
      } else if nodes[n].Row() == row && c == RowCount(front, row) {
        assert Column(nodes, n) == c;
      }
    }
  }

  // ---------- Rounding ----------

  const SAFE_INTEGER: int := 0x20_0000_0000_0000

  predicate Keeps(round: real -> real, k: int) { round(k as real) == k as real }

  predicate Safe(k: int) { -SAFE_INTEGER <= k <= SAFE_INTEGER }

  /** Integers up to 2^53 in absolute value are doubles. */
  ghost predicate KeepsIntegers(round: real -> real) {
    forall k: int :: Safe(k) ==> Keeps(round, k)
  }

  /** No coordinate of the first `columns` columns is rounded. */
  ghost predicate Exact(grid: Grid, columns: nat) {
    && (forall column: nat :: column < columns ==> grid.X(column) == grid.ExactX(column))
    && (forall row: nat :: row < 3 ==> grid.Y(row) == grid.ExactY(row))
  }

  /** A coordinate whose product and sum are safe integers is not rounded. */
  lemma CoordinateIsExact(round: real -> real, origin: real, product: real, x: int, p: int)
    requires KeepsIntegers(round) && Safe(p) && Safe(x + p) && origin == x as real && product == p as real
    ensures round(origin + round(product)) == origin + product
  {
    assert Keeps(round, p) && Keeps(round, x + p);
    assert origin + product == (x + p) as real;
  }

  lemma ScaledInteger(a: nat, width: real, w: int)
    requires width == w as real
    ensures Times(a, width) == (a * w) as real
  {
  }

  lemma ColumnIsExact(grid: Grid, x: int, p: int, column: nat)
    requires KeepsIntegers(grid.round) && Safe(p) && Safe(x + p)
    requires grid.originX == x as real && Times(column, grid.columnWidth) == p as real
    ensures grid.X(column) == grid.ExactX(column)
  {
    CoordinateIsExact(grid.round, grid.originX, Times(column, grid.columnWidth), x, p);
  }

  lemma RowIsExact(grid: Grid, y: int, p: int, row: nat)
    requires KeepsIntegers(grid.round) && Safe(p) && Safe(y + p)
    requires grid.originY == y as real && Times(row, grid.rowHeight) == p as real
    ensures grid.Y(row) == grid.ExactY(row)
  {
    CoordinateIsExact(grid.round, grid.originY, Times(row, grid.rowHeight), y, p);
  }

  /** The products and sums of an axis with integer measures are safe integers. */
  predicate SafeAxis(width: int, origin: int, count: nat) {
    forall a: nat :: a < count ==> Safe(a * width) && Safe(origin + a * width)
  }

  /** Integer measures whose coordinates stay within 2^53 are exact. */
  lemma IntegerGridsAreExact(grid: Grid, w: int, h: int, x: int, y: int, columns: nat)
    requires grid.columnWidth == w as real && grid.rowHeight == h as real
    requires grid.originX == x as real && grid.originY == y as real && KeepsIntegers(grid.round)
    requires SafeAxis(w, x, columns) && SafeAxis(h, y, 3)
    ensures Exact(grid, columns)
  {
    forall column: nat | column < columns
      ensures grid.X(column) == grid.ExactX(column)
    {
      assert Safe(column * w) && Safe(x + column * w);
      ScaledInteger(column, grid.columnWidth, w);
      ColumnIsExact(grid, x, column * w, column);
    }
    forall row: nat | row < 3
      ensures grid.Y(row) == grid.ExactY(row)
    {
      assert Safe(row * h) && Safe(y + row * h);
      ScaledInteger(row, grid.rowHeight, h);
      RowIsExact(grid, y, row * h, row);
    }
  }

  /** With the default measures, 10^13 columns are exact. */
  lemma DefaultGridIsExact(round: real -> real)
    requires KeepsIntegers(round)
    ensures Exact(GridOf(LayoutOptions(None, None, None, None), round), 10_000_000_000_000)
  {
    IntegerGridsAreExact(GridOf(LayoutOptions(None, None, None, None), round), 240, 140, 0, 0, 10_000_000_000_000);
  }

  // ---------- Overlaps ----------

  ghost predicate Overlap(out: seq<PositionedNode>) {
    exists i, j :: 0 <= i < j < |out| && out[i].position == out[j].position
  }

  /** Two columns in use in one row have one x coordinate. */
  ghost predicate ColumnsCollide(grid: Grid, nodes: seq<TopologyNode>) {
    exists row, c, c' :: 0 <= c < c' < RowCount(nodes, row) && grid.X(c) == grid.X(c')
  }

  /** Two rows in use have one y coordinate. */
  ghost predicate RowsCollide(grid: Grid, nodes: seq<TopologyNode>) {
    exists row, row' ::
      0 <= row < row' && RowCount(nodes, row) > 0 && RowCount(nodes, row') > 0 && grid.Y(row) == grid.Y(row')
  }

  /** The first node of a row stands in column 0. */
  lemma {:induction false} RowStartsAtZero(nodes: seq<TopologyNode>, row: nat) returns (k: nat)
    requires RowCount(nodes, row) > 0
    ensures k < |nodes| && nodes[k].Row() == row && Column(nodes, k) == 0
  {
    ColumnsAreDense(nodes, row, 0);
    k :| k < |nodes| && nodes[k].Row() == row && Column(nodes, k) == 0;
  }

  lemma PairOverlaps(grid: Grid, sorted: seq<TopologyNode>, i: nat, j: nat)
    requires i < |sorted| && j < |sorted| && i != j
    requires grid.X(Column(sorted, i)) == grid.X(Column(sorted, j))
    requires grid.Y(sorted[i].Row()) == grid.Y(sorted[j].Row())
    ensures Overlap(Placed(grid, sorted))
  {
    var out := Placed(grid, sorted);
    var (a, b) := if i < j then (i, j) else (j, i);
    assert out[a].position == out[b].position;
  }

  lemma CollidingColumnsOverlap(grid: Grid, sorted: seq<TopologyNode>)
    requires ColumnsCollide(grid, sorted)
    ensures Overlap(Placed(grid, sorted))
  {
    var row, c, c' :| 0 <= c < c' < RowCount(sorted, row) && grid.X(c) == grid.X(c');
    ColumnsAreDense(sorted, row, c);
    ColumnsAreDense(sorted, row, c');
    var i: nat :| i < |sorted| && sorted[i].Row() == row && Column(sorted, i) == c;
    var j: nat :| j < |sorted| && sorted[j].Row() == row && Column(sorted, j) == c';
    PairOverlaps(grid, sorted, i, j);
  }

  lemma CollidingRowsOverlap(grid: Grid, sorted: seq<TopologyNode>)
    requires RowsCollide(grid, sorted)
    ensures Overlap(Placed(grid, sorted))
  {
    var row: nat, row': nat :|
      row < row' && RowCount(sorted, row) > 0 && RowCount(sorted, row') > 0 && grid.Y(row) == grid.Y(row');
    var i := RowStartsAtZero(sorted, row);
    var j := RowStartsAtZero(sorted, row');
    PairOverlaps(grid, sorted, i, j);
  }

  lemma OverlapIsCollision(grid: Grid, sorted: seq<TopologyNode>)
    requires Overlap(Placed(grid, sorted))
    ensures ColumnsCollide(grid, sorted) || RowsCollide(grid, sorted)
  {
    var out := Placed(grid, sorted);
    var i, j :| 0 <= i < j < |out| && out[i].position == out[j].position;
    var (row, row', c, c') := (sorted[i].Row(), sorted[j].Row(), Column(sorted, i), Column(sorted, j));
    ColumnsAreDense(sorted, row, c);
    ColumnsAreDense(sorted, row', c');
    assert c < RowCount(sorted, row) && c' < RowCount(sorted, row');
    assert grid.X(c) == grid.X(c') && grid.Y(row) == grid.Y(row');
    if row == row' {
      ColumnsIncrease(sorted, i, j);
    }
  }

  // ---------- Overlaps in terms of the input ----------

  lemma {:induction false} CountWithout(nodes: seq<TopologyNode>, k: nat, row: nat)
    requires k < |nodes|
    ensures RowCount(nodes, row) ==
      RowCount(Without(nodes, k), row) + if nodes[k].Row() == row then 1 else 0
  {
    var n := |nodes| - 1;
    if k == n {
      assert Without(nodes, k) == nodes[..n];
    } else {
      var rest := Without(nodes, k);
      assert rest[..|rest| - 1] == Without(nodes[..n], k);
      CountWithout(nodes[..n], k, row);
    }
  }

  /** Two arrangements, one without its last element and the other one without the same element. */
  lemma WithoutSame<T>(a: seq<T>, b: seq<T>) returns (k: nat)
    requires multiset(a) == multiset(b) && a != []
    ensures k < |b| && b[k] == a[|a| - 1]
    ensures multiset(a[..|a| - 1]) == multiset(Without(b, k))
  {
    var n := |a| - 1;
    assert a[n] in multiset(b);
    k :| 0 <= k < |b| && b[k] == a[n];
    CancelOne(multiset(Without(a, n)), multiset(Without(b, k)), a[n]);
    assert Without(a, n) == a[..n];
  }

  lemma CancelOne<T>(m: multiset<T>, m': multiset<T>, x: T)
    requires m + multiset{x} == m' + multiset{x}
    ensures m == m'
  {
    assert m == m + multiset{x} - multiset{x} && m' == m' + multiset{x} - multiset{x};
  }

  /** Rearranging the nodes does not change how many belong to a row. */
  lemma {:induction false} CountRearranged(a: seq<TopologyNode>, b: seq<TopologyNode>, row: nat)
    requires multiset(a) == multiset(b)
    ensures RowCount(a, row) == RowCount(b, row)
  {
    if a == [] {
      assert |multiset(b)| == 0;
    } else {
      var k := WithoutSame(a, b);
      CountWithout(b, k, row);
      CountRearranged(a[..|a| - 1], Without(b, k), row);
    }
  }

  /**
   For all measures, however they are rounded: two nodes of a layout share a position exactly when
   two columns that the nodes of one row need have one x coordinate, or two rows in use have one y
   coordinate.
   */
  lemma OverlapExactly(grid: Grid, nodes: seq<TopologyNode>, out: seq<PositionedNode>)
    requires IsLayout(grid, nodes, out)
    ensures Overlap(out) <==> ColumnsCollide(grid, nodes) || RowsCollide(grid, nodes)
  {
    var sorted :| StableSortOf(nodes, ByKey(NodeKey()), sorted) && out == Placed(grid, sorted);
    StableSortRearranges(nodes, ByKey(NodeKey()), sorted);
    forall row: nat
      ensures RowCount(nodes, row) == RowCount(sorted, row)
    {
      CountRearranged(nodes, sorted, row);
    }
    SameCollisions(grid, nodes, sorted);
    if Overlap(out) {
      OverlapIsCollision(grid, sorted);
    }
    if ColumnsCollide(grid, sorted) {
      CollidingColumnsOverlap(grid, sorted);
    }
    if RowsCollide(grid, sorted) {
      CollidingRowsOverlap(grid, sorted);
    }
  }

  lemma SameCollisions(grid: Grid, a: seq<TopologyNode>, b: seq<TopologyNode>)
    requires forall row: nat :: RowCount(a, row) == RowCount(b, row)
    ensures ColumnsCollide(grid, a) <==> ColumnsCollide(grid, b)
    ensures RowsCollide(grid, a) <==> RowsCollide(grid, b)
  {
    assert forall row: nat :: RowCount(b, row) == RowCount(a, row);
  }

  // ---------- Overlaps without rounding ----------

  lemma ScaledEqual(origin: real, a: nat, b: nat, width: real)
    ensures origin + Times(a, width) == origin + Times(b, width) <==> a == b || width == 0.0
  {
    assert Times(a, width) - Times(b, width) == (a - b) as real * width;
    if a != b && width != 0.0 {
      assert (a - b) as real * width != 0.0;
    }
  }

  lemma SameX(grid: Grid, a: nat, b: nat)
    ensures grid.ExactX(a) == grid.ExactX(b) <==> a == b || grid.columnWidth == 0.0
  {
    ScaledEqual(grid.originX, a, b, grid.columnWidth);
  }

  lemma SameY(grid: Grid, a: nat, b: nat)
    ensures grid.ExactY(a) == grid.ExactY(b) <==> a == b || grid.rowHeight == 0.0
  {
    ScaledEqual(grid.originY, a, b, grid.rowHeight);
  }

  lemma {:induction false} ColumnWithin(nodes: seq<TopologyNode>, row: nat)
    ensures RowCount(nodes, row) <= |nodes|
    ensures row >= 3 ==> RowCount(nodes, row) == 0
  {
    if nodes != [] {
      ColumnWithin(nodes[..|nodes| - 1], row);
    }
  }

  /** Some row holds two nodes. */
  ghost predicate SharedRow(nodes: seq<TopologyNode>) {
    exists row :: 0 <= row && RowCount(nodes, row) >= 2
  }

  /** Two rows are in use. */
  ghost predicate TwoRows(nodes: seq<TopologyNode>) {
    exists row, row' :: 0 <= row < row' && RowCount(nodes, row) > 0 && RowCount(nodes, row') > 0
  }

  lemma UnroundedColumns(grid: Grid, nodes: seq<TopologyNode>)
    requires Exact(grid, |nodes|)
    ensures ColumnsCollide(grid, nodes) <==> grid.columnWidth == 0.0 && SharedRow(nodes)
  {
    if ColumnsCollide(grid, nodes) {
      var row, c, c' :| 0 <= c < c' < RowCount(nodes, row) && grid.X(c) == grid.X(c');
      ColumnWithin(nodes, row);
      SameX(grid, c, c');
    }
    if grid.columnWidth == 0.0 && SharedRow(nodes) {
      var row: nat :| RowCount(nodes, row) >= 2;
      ColumnWithin(nodes, row);
      SameX(grid, 0, 1);
      assert grid.X(0) == grid.X(1);
    }
  }

  lemma UnroundedRows(grid: Grid, nodes: seq<TopologyNode>)
    requires Exact(grid, |nodes|)
    ensures RowsCollide(grid, nodes) <==> grid.rowHeight == 0.0 && TwoRows(nodes)
  {
    forall row: nat, row': nat | row < row' && RowCount(nodes, row) > 0 && RowCount(nodes, row') > 0
      ensures grid.Y(row) == grid.Y(row') <==> grid.rowHeight == 0.0
    {
      ColumnWithin(nodes, row);
      ColumnWithin(nodes, row');
      SameY(grid, row, row');
    }
  }

  /**
   So as long as no coordinate is rounded, two nodes share a position exactly when the columns have
   no width and a row holds two nodes, or the rows have no height and two rows are in use.
   */
  lemma OverlapWithoutRounding(grid: Grid, nodes: seq<TopologyNode>, out: seq<PositionedNode>)
    requires IsLayout(grid, nodes, out)
    ensures Exact(grid, |nodes|) ==>
      (Overlap(out) <==>
        (grid.columnWidth == 0.0 && SharedRow(nodes)) || (grid.rowHeight == 0.0 && TwoRows(nodes)))
  {
    if Exact(grid, |nodes|) {
      OverlapExactly(grid, nodes, out);
      UnroundedColumns(grid, nodes);
      UnroundedRows(grid, nodes);
    }
  }

  /**
   Rounding can make nodes overlap: 10^17 and 10^17 + 1 are one double, so with that origin and
   columns of width 1 the first two agents share a position.
   */
  lemma RoundingCanOverlap(round: real -> real, rowHeight: real, originY: real, a: TopologyNode, b: TopologyNode)
    requires round(0.0) == 0.0 && round(1.0) == 1.0
    requires round(1.0e17) == 1.0e17 && round(1.0e17 + 1.0) == 1.0e17
    requires a.kind.Agent? && b.kind.Agent?
    ensures Overlap(Placed(Grid(1.0, rowHeight, 1.0e17, originY, round), [a, b]))
  {
    var out := Placed(Grid(1.0, rowHeight, 1.0e17, originY, round), [a, b]);
    assert [a, b][..0] == [] && [a, b][..1] == [a] && [a][..0] == [];
    assert Column([a, b], 0) == 0 && Column([a, b], 1) == 1;
    assert out[0].position == out[1].position;
  }

  // ---------- The order within a row ----------

  /** What decides the order of two nodes of one row. */
  function Tail(n: TopologyNode): string { n.caption + ":" + n.nodeId }

  lemma KeyWithinRow(a: TopologyNode, b: TopologyNode)
    requires a.Row() == b.Row()
    ensures Less(a.SortKey(), b.SortKey()) <==> Less(Tail(a), Tail(b))
    ensures a.SortKey() == b.SortKey() <==> Tail(a) == Tail(b)
  {
    var front := [DigitChar(a.Row())] + ":";
    assert a.SortKey() == front + Tail(a) && b.SortKey() == front + Tail(b);
    LessAfterCommonPrefix(front, Tail(a), Tail(b));
    assert a.SortKey()[|front|..] == Tail(a) && b.SortKey()[|front|..] == Tail(b);
  }

  /** In each row the nodes stand in the order of their ids, as the documentation has it. */
  ghost predicate RowsById(sorted: seq<TopologyNode>) {
    forall x, y :: 0 <= x < y < |sorted| && sorted[x].Row() == sorted[y].Row() ==>
      !Less(sorted[y].nodeId, sorted[x].nodeId)
  }

  /** Where the ids of two nodes of one row differ in order, their labels (or else the input) put them in that order. */
  ghost predicate LabelsFollowIds(nodes: seq<TopologyNode>) {
    forall i, j :: 0 <= i < |nodes| && 0 <= j < |nodes| && IdsInOrder(nodes[i], nodes[j]) ==>
      Less(Tail(nodes[i]), Tail(nodes[j])) || (Tail(nodes[i]) == Tail(nodes[j]) && i < j)
  }

  predicate IdsInOrder(a: TopologyNode, b: TopologyNode) {
    a.Row() == b.Row() && Less(a.nodeId, b.nodeId)
  }

  lemma StablyWithinRow(nodes: seq<TopologyNode>, i: int, j: int)
    requires 0 <= i < |nodes| && 0 <= j < |nodes| && nodes[i].Row() == nodes[j].Row()
    ensures Stably(nodes, ByKey(NodeKey()), i, j) <==>
      Less(Tail(nodes[i]), Tail(nodes[j])) || (Tail(nodes[i]) == Tail(nodes[j]) && i < j)
  {
    KeyWithinRow(nodes[i], nodes[j]);
    KeyWithinRow(nodes[j], nodes[i]);
    LessTrichotomy(Tail(nodes[i]), Tail(nodes[j]));
  }

  /** The rows are in id order exactly when the labels agree with the ids. */
  lemma RowsByIdExactly(nodes: seq<TopologyNode>, sorted: seq<TopologyNode>)
    requires StableSortOf(nodes, ByKey(NodeKey()), sorted)
    ensures RowsById(sorted) <==> LabelsFollowIds(nodes)
  {
    if RowsById(sorted) {
      forall i, j | 0 <= i < |nodes| && 0 <= j < |nodes| && IdsInOrder(nodes[i], nodes[j])
        ensures Less(Tail(nodes[i]), Tail(nodes[j])) || (Tail(nodes[i]) == Tail(nodes[j]) && i < j)
      {
        IdsDecide(nodes, sorted, i, j);
      }
    }
    if LabelsFollowIds(nodes) {
      LabelsDecide(nodes, sorted);
    }
  }

  lemma IdsDecide(nodes: seq<TopologyNode>, sorted: seq<TopologyNode>, i: nat, j: nat)
    requires StableSortOf(nodes, ByKey(NodeKey()), sorted) && RowsById(sorted)
    requires i < |nodes| && j < |nodes| && IdsInOrder(nodes[i], nodes[j])
    ensures Less(Tail(nodes[i]), Tail(nodes[j])) || (Tail(nodes[i]) == Tail(nodes[j]) && i < j)
  {
    LessIrreflexive(nodes[i].nodeId);
    StablyWithinRow(nodes, i, j);
    StablyWithinRow(nodes, j, i);
    LessTrichotomy(Tail(nodes[i]), Tail(nodes[j]));
    if !Stably(nodes, ByKey(NodeKey()), i, j) {
      var y, x := SortedPositions(nodes, ByKey(NodeKey()), sorted, j, i);
      assert false;
    }
  }

  lemma LabelsDecide(nodes: seq<TopologyNode>, sorted: seq<TopologyNode>)
    requires StableSortOf(nodes, ByKey(NodeKey()), sorted) && LabelsFollowIds(nodes)
    ensures RowsById(sorted)
  {
    var p :| Orders(nodes, ByKey(NodeKey()), p) && Picks(nodes, p, sorted);
    forall x, y | 0 <= x < y < |sorted| && sorted[x].Row() == sorted[y].Row()
      ensures !Less(sorted[y].nodeId, sorted[x].nodeId)
    {
      assert Stably(nodes, ByKey(NodeKey()), p[x], p[y]);
      StablyWithinRow(nodes, p[x], p[y]);
      LessTrichotomy(Tail(nodes[p[x]]), Tail(nodes[p[y]]));
    }
  }

  /** Labels come first: agent "2" with label "a" stands before agent "1" with label "b". */
  lemma LabelsComeFirst(body: int, sorted: seq<TopologyNode>)
    requires
      var nodes := [TopologyNode("1", Agent, "b", body), TopologyNode("2", Agent, "a", body)];
      StableSortOf(nodes, ByKey(NodeKey()), sorted)
    ensures !RowsById(sorted)
  {
    var nodes := [TopologyNode("1", Agent, "b", body), TopologyNode("2", Agent, "a", body)];
    assert Tail(nodes[0]) == "b:1" && Tail(nodes[1]) == "a:2";
    assert "a:2"[0] < "b:1"[0] && "1"[0] < "2"[0];
    LessTrichotomy("a:2", "b:1");
    assert Less(nodes[0].nodeId, nodes[1].nodeId);
    RowsByIdExactly(nodes, sorted);
  }

  // ---------- Independence of the input order ----------

  ghost predicate DistinctKeys(nodes: seq<TopologyNode>) {
    forall i, j :: 0 <= i < j < |nodes| ==> nodes[i].SortKey() != nodes[j].SortKey()
  }

  ghost predicate DistinctNodes(nodes: seq<TopologyNode>) {
    forall i, j :: 0 <= i < j < |nodes| ==> nodes[i] != nodes[j]
  }

  lemma KeyAsymmetric()
    ensures Asymmetric(ByKey(NodeKey()))
  {
    forall a: TopologyNode, b: TopologyNode | Less(a.SortKey(), b.SortKey())
      ensures !Less(b.SortKey(), a.SortKey())
    {
      LessTrichotomy(a.SortKey(), b.SortKey());
    }
  }

  lemma DistinctKeysSortStrictly(nodes: seq<TopologyNode>, sorted: seq<TopologyNode>)
    requires DistinctKeys(nodes) && StableSortOf(nodes, ByKey(NodeKey()), sorted)
    ensures SortedBy(sorted, ByKey(NodeKey()))
  {
    var p :| Orders(nodes, ByKey(NodeKey()), p) && Picks(nodes, p, sorted);
    forall i, j | 0 <= i < j < |sorted|
      ensures Less(sorted[i].SortKey(), sorted[j].SortKey())
    {
      assert Stably(nodes, ByKey(NodeKey()), p[i], p[j]);
      assert p[i] < p[j] || p[j] < p[i];
      LessTrichotomy(sorted[i].SortKey(), sorted[j].SortKey());
    }
  }

  /** With distinct keys, every order of the input gives the same positioned nodes. */
  lemma LayoutIgnoresInputOrder(
    grid: Grid, nodes: seq<TopologyNode>, nodes': seq<TopologyNode>,
    out: seq<PositionedNode>, out': seq<PositionedNode>)
    requires multiset(nodes) == multiset(nodes')
    requires DistinctKeys(nodes) && DistinctKeys(nodes')
    requires IsLayout(grid, nodes, out) && IsLayout(grid, nodes', out')
    ensures out == out'
  {
    var lt := ByKey(NodeKey());
    var s :| StableSortOf(nodes, lt, s) && out == Placed(grid, s);
    var s' :| StableSortOf(nodes', lt, s') && out' == Placed(grid, s');
    KeyAsymmetric();
    DistinctKeysSortStrictly(nodes, s);
    DistinctKeysSortStrictly(nodes', s');
    StableSortRearranges(nodes, lt, s);
    StableSortRearranges(nodes', lt, s');
    forall x
      ensures x in s <==> x in s'
    {
      assert x in s <==> x in multiset(s);
      assert x in s' <==> x in multiset(s');
    }
    SortedUnique(s, s', lt);
  }

  /** Nodes with equal keys keep their input order in the output. */
  lemma EqualKeysKeepOrder(nodes: seq<TopologyNode>, sorted: seq<TopologyNode>, i: nat, j: nat) returns (a: nat, b: nat)
    requires StableSortOf(nodes, ByKey(NodeKey()), sorted)
    requires i < j < |nodes| && nodes[i].SortKey() == nodes[j].SortKey()
    ensures a < b < |sorted| && sorted[a] == nodes[i] && sorted[b] == nodes[j]
  {
    var p :| Orders(nodes, ByKey(NodeKey()), p) && Picks(nodes, p, sorted);
    PermutationCovers(|nodes|, p);
    assert i in p && j in p;
    a :| 0 <= a < |p| && p[a] == i;
    b :| 0 <= b < |p| && p[b] == j;
    var lt := ByKey(NodeKey());
    assert forall x, y :: 0 <= x < y < |p| ==> Stably(nodes, lt, p[x], p[y]);
    LessIrreflexive(nodes[i].SortKey());
  }

  /** A sorted sequence of distinct nodes has each of them in one place. */
  lemma SortedDistinct(nodes: seq<TopologyNode>, sorted: seq<TopologyNode>)
    requires DistinctNodes(nodes) && StableSortOf(nodes, ByKey(NodeKey()), sorted)
    ensures DistinctNodes(sorted)
  {
    var p :| Orders(nodes, ByKey(NodeKey()), p) && Picks(nodes, p, sorted);
    forall i, j | 0 <= i < j < |sorted|
      ensures sorted[i] != sorted[j]
    {
      assert p[i] < p[j] || p[j] < p[i];
    }
  }

  /**
   Conversely, two distinct nodes with the same key are laid out in input order, so exchanging
   them in the input changes the output.
   */
  lemma EqualKeysExposeInputOrder(
    grid: Grid, nodes: seq<TopologyNode>, i: nat, j: nat,
    out: seq<PositionedNode>, out': seq<PositionedNode>)
    requires DistinctNodes(nodes)
    requires i < j < |nodes| && nodes[i].SortKey() == nodes[j].SortKey()
    requires IsLayout(grid, nodes, out)
    requires IsLayout(grid, nodes[i := nodes[j]][j := nodes[i]], out')
    ensures out != out'
  {
    var lt := ByKey(NodeKey());
    var nodes' := nodes[i := nodes[j]][j := nodes[i]];
    var s :| StableSortOf(nodes, lt, s) && out == Placed(grid, s);
    var s' :| StableSortOf(nodes', lt, s') && out' == Placed(grid, s');
    var a, b := EqualKeysKeepOrder(nodes, s, i, j);
    var a', b' := EqualKeysKeepOrder(nodes', s', i, j);
    SortedDistinct(nodes, s);
    OrderShows(s, s', a, b, a', b');
    PlacedInjective(grid, s, s');
  }

  lemma OrderShows(s: seq<TopologyNode>, s': seq<TopologyNode>, a: nat, b: nat, a': nat, b': nat)
    requires DistinctNodes(s) && a < b < |s| && a' < b' < |s'|
    requires s[a] == s'[b'] && s[b] == s'[a']
    ensures s != s'
  {
  }

  lemma PlacedInjective(grid: Grid, s: seq<TopologyNode>, s': seq<TopologyNode>)
    requires s != s'
    ensures Placed(grid, s) != Placed(grid, s')
  {
    if |s| == |s'| {
      var k :| 0 <= k < |s| && s[k] != s'[k];
      assert Placed(grid, s)[k] == Place(grid, s[k], Column(s, k));
      assert Placed(grid, s')[k] == Place(grid, s'[k], Column(s', k));
      assert Placed(grid, s)[k].data != Placed(grid, s')[k].data;
    } else {
      assert |Placed(grid, s)| != |Placed(grid, s')|;
    }
  }

  /** Ids without ':' make the keys of distinct ids distinct, whatever the captions (labels) are. */
  lemma ColonFreeIdsGiveDistinctKeys(a: TopologyNode, b: TopologyNode)
    requires ':' !in a.nodeId && ':' !in b.nodeId
    requires a.nodeId != b.nodeId
    ensures a.SortKey() != b.SortKey()
  {
    var (k, l) := (a.SortKey(), b.SortKey());
    assert k[|k| - |a.nodeId|..] == a.nodeId && l[|l| - |b.nodeId|..] == b.nodeId;
    assert k[|k| - |a.nodeId| - 1] == ':' && l[|l| - |b.nodeId| - 1] == ':';
    assert forall i :: |k| - |a.nodeId| <= i < |k| ==> k[i] == a.nodeId[i - (|k| - |a.nodeId|)];
    assert forall i :: |l| - |b.nodeId| <= i < |l| ==> l[i] == b.nodeId[i - (|l| - |b.nodeId|)];
  }

  /** The id of `a` is the id of `b` behind `x`, and the caption of `b` that of `a` before `x`. */
  predicate Shifted(a: TopologyNode, b: TopologyNode, x: string) {
    a.nodeId == x + ":" + b.nodeId && b.caption == a.caption + ":" + x
  }

  /**
   Two nodes with different ids share a key exactly when they share a row and a part between colons
   can be read both ways.
   */
  lemma SharedKeyExactly(a: TopologyNode, b: TopologyNode)
    requires a.nodeId != b.nodeId
    ensures a.SortKey() == b.SortKey() <==> a.Row() == b.Row() && exists x :: Shifted(a, b, x) || Shifted(b, a, x)
  {
    if a.SortKey() == b.SortKey() {
      assert a.SortKey()[0] == b.SortKey()[0];
      KeyWithinRow(a, b);
      if |a.nodeId| >= |b.nodeId| {
        TailsShift(a, b);
      } else {
        TailsShift(b, a);
      }
    } else if a.Row() == b.Row() {
      KeyWithinRow(a, b);
      forall x
        ensures !Shifted(a, b, x) && !Shifted(b, a, x)
      {
        assert Shifted(a, b, x) ==> Tail(a) == Tail(b) == a.caption + ":" + x + ":" + b.nodeId;
        assert Shifted(b, a, x) ==> Tail(a) == Tail(b) == b.caption + ":" + x + ":" + a.nodeId;
      }
    }
  }

  lemma TailsShift(a: TopologyNode, b: TopologyNode)
    requires Tail(a) == Tail(b) && |a.nodeId| >= |b.nodeId| && a.nodeId != b.nodeId
    ensures exists x :: Shifted(a, b, x)
  {
    var (s, n) := (Tail(a), |a.nodeId| - |b.nodeId|);
    assert s[|s| - |a.nodeId|..] == a.nodeId && s[|s| - |b.nodeId|..] == b.nodeId;
    assert a.nodeId[n..] == b.nodeId;
    assert n > 0 && s[|s| - |b.nodeId| - 1] == ':' == a.nodeId[n - 1];
    var x := a.nodeId[..n - 1];
    assert a.nodeId == x + ":" + b.nodeId;
    assert b.caption == s[..|b.caption|] && a.caption == s[..|a.caption|] && s[|a.caption|] == ':';
    assert b.caption == a.caption + ":" + x;
    assert Shifted(a, b, x);
  }

  /** With ':' in labels and ids, distinct ids can share a key. */
  lemma KeysCanCollide(body: int)
    ensures
      var a := TopologyNode("c", Agent, "a:b", body);
      var b := TopologyNode("b:c", Agent, "a", body);
      a.nodeId != b.nodeId && a.SortKey() == b.SortKey()
  {
    var a := TopologyNode("c", Agent, "a:b", body);
    var b := TopologyNode("b:c", Agent, "a", body);
    assert a.SortKey() == [DigitChar(1)] + ":a:b:c" == b.SortKey();
  }
}
