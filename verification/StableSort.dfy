/**
 The stable sort by string key of `packages/shared`: every item is paired with its position
 and its key, the pairs are sorted in place by (key, position), and the items are read back.
 */
module StableSort {
  import opened Text

  /** The local record the sort works on. */
  datatype Entry<T> = Entry(item: T, index: nat, key: string)

  /** The comparator of the source: -1, 1, or the difference of the positions. */
  function Compare<T>(a: Entry<T>, b: Entry<T>): int {
    if Less(a.key, b.key) then -1
    else if Less(b.key, a.key) then 1
    else a.index - b.index
  }

  /** The comparator puts `a` before `b`. */
  predicate Before<T>(a: Entry<T>, b: Entry<T>) { Compare(a, b) < 0 }

  lemma BeforeTransitive<T>(a: Entry<T>, b: Entry<T>, c: Entry<T>)
    requires Before(a, b) && Before(b, c)
    ensures Before(a, c)
  {
    LessTrichotomy(a.key, b.key);
    LessTrichotomy(b.key, c.key);
    LessTrichotomy(a.key, c.key);
    if Less(a.key, b.key) && Less(b.key, c.key) {
      LessTransitive(a.key, b.key, c.key);
    }
  }

  lemma BeforeTotal<T>(a: Entry<T>, b: Entry<T>)
    requires a.index != b.index
    ensures Before(a, b) <==> !Before(b, a)
  {
    LessTrichotomy(a.key, b.key);
  }

  // ---------- What a stable sort is, for any order on items ----------

  /** `p` lists every position of a sequence of length `n` exactly once. */
  ghost predicate IsPermutation(n: nat, p: seq<int>) {
    && |p| == n
    && (forall i :: 0 <= i < n ==> 0 <= p[i] < n)
    && (forall i, j :: 0 <= i < j < n ==> p[i] != p[j])
  }

  /** `before` applied to items, with the original position as the tie break. */
  ghost predicate Stably<T(!new)>(items: seq<T>, before: (T, T) -> bool, i: int, j: int)
    requires 0 <= i < |items| && 0 <= j < |items|
  {
    before(items[i], items[j]) || (!before(items[j], items[i]) && i < j)
  }

  /** `p` visits the positions in the order of `before`, ties in their original order. */
  ghost predicate Orders<T(!new)>(items: seq<T>, before: (T, T) -> bool, p: seq<int>) {
    && IsPermutation(|items|, p)
    && (forall i, j :: 0 <= i < j < |p| ==> Stably(items, before, p[i], p[j]))
  }

  /** `r` reads the items at the positions `p`. */
  ghost predicate Picks<T(!new)>(items: seq<T>, p: seq<int>, r: seq<T>) {
    && IsPermutation(|items|, p)
    && |r| == |items|
    && (forall i :: 0 <= i < |r| ==> r[i] == items[p[i]])
  }

  /** `r` is the stable sort of `items` by `before`. */
  ghost predicate StableSortOf<T(!new)>(items: seq<T>, before: (T, T) -> bool, r: seq<T>) {
    exists p :: Orders(items, before, p) && Picks(items, p, r)
  }

  /** `before` compares items by their string keys. */
  function ByKey<T>(key: T -> string): (T, T) -> bool {
    (a, b) => Less(key(a), key(b))
  }

  // ---------- There is only one ----------

  ghost predicate Asymmetric<T(!new)>(lt: (T, T) -> bool) {
    forall a, b :: lt(a, b) ==> !lt(b, a)
  }

  ghost predicate SortedBy<T(!new)>(s: seq<T>, lt: (T, T) -> bool) {
    forall i, j :: 0 <= i < j < |s| ==> lt(s[i], s[j])
  }

  /** Two sequences with the same elements, both strictly sorted, are the same sequence. */
  lemma {:induction false} SortedUnique<T(!new)>(s: seq<T>, t: seq<T>, lt: (T, T) -> bool)
    requires Asymmetric(lt) && SortedBy(s, lt) && SortedBy(t, lt)
    requires forall x :: x in s <==> x in t
    ensures s == t
  {
    assert forall i :: 0 <= i < |s| ==> s[i] in t;
    assert forall i :: 0 <= i < |t| ==> t[i] in s;
    if s != [] && t != [] {
      SameHead(s, t, lt);
      forall x
        ensures x in s[1..] <==> x in t[1..]
      {
        TailMembers(s, lt, x);
        TailMembers(t, lt, x);
      }
      SortedUnique(s[1..], t[1..], lt);
      assert s == [s[0]] + s[1..] && t == [t[0]] + t[1..];
    }
  }

  lemma SameHead<T(!new)>(s: seq<T>, t: seq<T>, lt: (T, T) -> bool)
    requires Asymmetric(lt) && SortedBy(s, lt) && SortedBy(t, lt)
    requires s != [] && t != [] && s[0] in t && t[0] in s
    ensures s[0] == t[0]
  {
    var i :| 0 <= i < |t| && t[i] == s[0];
    var j :| 0 <= j < |s| && s[j] == t[0];
  }

  lemma TailMembers<T(!new)>(s: seq<T>, lt: (T, T) -> bool, x: T)
    requires Asymmetric(lt) && SortedBy(s, lt) && s != []
    ensures x in s[1..] <==> x in s && x != s[0]
  {
    if x in s && x != s[0] {
      var i :| 0 <= i < |s| && s[i] == x;
      assert s[1..][i - 1] == x;
    }
    if x in s[1..] {
      var i :| 0 <= i < |s| - 1 && s[1..][i] == x;
      assert s[i + 1] == x && lt(s[0], s[i + 1]);
    }
  }

  lemma {:induction false} DistinctCount(p: seq<int>)
    requires forall i, j :: 0 <= i < j < |p| ==> p[i] != p[j]
    ensures |set x | x in p| == |p|
  {
    if p != [] {
      var q := p[..|p| - 1];
      DistinctCount(q);
      assert p == q + [p[|p| - 1]];
      assert (set x | x in p) == (set x | x in q) + {p[|p| - 1]};
    }
  }

  /** The positions of a sequence of length `n`. */
  ghost function Positions(n: nat): (r: set<int>)
    ensures |r| == n
    ensures forall x :: x in r <==> 0 <= x < n
  {
    if n == 0 then {} else Positions(n - 1) + {n - 1}
  }

  lemma SubsetOfEqualCount<T>(a: set<T>, b: set<T>)
    requires a <= b && |a| == |b|
    ensures a == b
  {
    assert b == a + (b - a);
    assert |b| == |a| + |b - a|;
  }

  /** A permutation reaches every position. */
  lemma PermutationCovers(n: nat, p: seq<int>)
    requires IsPermutation(n, p)
    ensures forall x :: x in p <==> 0 <= x < n
  {
    DistinctCount(p);
    var reached := set x | x in p;
    assert forall x :: x in p <==> x in reached;
    SubsetOfEqualCount(reached, Positions(n));
  }

  /** The stable sort of a sequence by a strict order is one definite sequence. */
  lemma StableSortUnique<T(!new)>(items: seq<T>, before: (T, T) -> bool, r: seq<T>, r': seq<T>)
    requires Asymmetric(before)
    requires StableSortOf(items, before, r) && StableSortOf(items, before, r')
    ensures r == r'
  {
    var n := |items|;
    var p :| Orders(items, before, p) && Picks(items, p, r);
    var p' :| Orders(items, before, p') && Picks(items, p', r');
    PermutationCovers(n, p);
    PermutationCovers(n, p');
    var lt := (i: int, j: int) => 0 <= i < n && 0 <= j < n && Stably(items, before, i, j);
    assert SortedBy(p, lt) && SortedBy(p', lt);
    SortedUnique(p, p', lt);
  }

  /** A stable sort rearranges: same elements, same multiplicities. */
  lemma StableSortRearranges<T(!new)>(items: seq<T>, before: (T, T) -> bool, r: seq<T>)
    requires StableSortOf(items, before, r)
    ensures multiset(r) == multiset(items)
  {
    var p :| Orders(items, before, p) && Picks(items, p, r);
    PickedMultiset(items, p, r);
  }

  /** A sequence cannot be sorted by two orders that disagree about two of its items. */
  lemma NoDisagreement<T(!new)>(items: seq<T>, lt: (T, T) -> bool, lt': (T, T) -> bool, r: seq<T>, i: nat, j: nat)
    requires StableSortOf(items, lt, r) && StableSortOf(items, lt', r)
    requires i < |items| && j < |items|
    requires lt(items[i], items[j]) && !lt(items[j], items[i])
    ensures lt'(items[i], items[j]) || !lt'(items[j], items[i])
  {
    var p :| Orders(items, lt, p) && Picks(items, p, r);
    var p' :| Orders(items, lt', p') && Picks(items, p', r);
    PermutationCovers(|items|, p);
    assert i in p && j in p;
    var x :| 0 <= x < |p| && p[x] == i;
    var y :| 0 <= y < |p| && p[y] == j;
    assert x < y ==> Stably(items, lt', p'[x], p'[y]);
    assert r[x] == items[i] == items[p'[x]] && r[y] == items[j] == items[p'[y]];
  }

  /** The positions of two items in a stable sort: the one that goes first stands first. */
  lemma SortedPositions<T(!new)>(items: seq<T>, lt: (T, T) -> bool, r: seq<T>, i: nat, j: nat) returns (x: nat, y: nat)
    requires StableSortOf(items, lt, r) && i < |items| && j < |items| && i != j
    requires Stably(items, lt, i, j) && !Stably(items, lt, j, i)
    ensures x < y < |r| && r[x] == items[i] && r[y] == items[j]
  {
    var p :| Orders(items, lt, p) && Picks(items, p, r);
    PermutationCovers(|items|, p);
    assert i in p && j in p;
    x :| 0 <= x < |p| && p[x] == i;
    y :| 0 <= y < |p| && p[y] == j;
  }

  function Without<T>(s: seq<T>, k: nat): (r: seq<T>)
    requires k < |s|
    ensures |r| == |s| - 1
    ensures forall i :: 0 <= i < |r| ==> r[i] == s[if i < k then i else i + 1]
    ensures multiset(r) + multiset{s[k]} == multiset(s)
  {
    assert s == s[..k] + [s[k]] + s[k + 1..];
    s[..k] + s[k + 1..]
  }

  lemma PickWithoutLast<T(!new)>(items: seq<T>, p: seq<int>, r: seq<T>, k: nat)
    requires Picks(items, p, r) && k < |p| && p[k] == |items| - 1
    ensures Picks(items[..|items| - 1], Without(p, k), Without(r, k))
  {
    var q := Without(p, k);
    forall i | 0 <= i < |q|
      ensures 0 <= q[i] < |items| - 1
    {
      assert p[if i < k then i else i + 1] != p[k];
    }
  }

  lemma {:induction false} PickedMultiset<T(!new)>(items: seq<T>, p: seq<int>, r: seq<T>)
    requires Picks(items, p, r)
    ensures multiset(r) == multiset(items)
  {
    if items != [] {
      var n := |items| - 1;
      PermutationCovers(|items|, p);
      assert n in p;
      var k :| 0 <= k < |p| && p[k] == n;
      PickWithoutLast(items, p, r, k);
      PickedMultiset(items[..n], Without(p, k), Without(r, k));
      assert items == items[..n] + [items[n]];
    }
  }

  // ---------- The sort ----------

  /** `e` is the record the source builds for position `e.index`. */
  ghost predicate Describes<T(!new)>(items: seq<T>, key: T -> string, e: Entry<T>) {
    e.index < |items| && e.item == items[e.index] && e.key == key(e.item)
  }

  /** Every slot describes its own position of `items`. */
  ghost predicate Slots<T(!new)>(items: seq<T>, key: T -> string, s: seq<Entry<T>>) {
    && |s| == |items|
    && (forall i :: 0 <= i < |s| ==> Describes(items, key, s[i]))
    && (forall i, j :: 0 <= i < j < |s| ==> s[i].index != s[j].index)
  }

  ghost predicate SortedEntries<T(!new)>(s: seq<Entry<T>>) {
    forall i, j :: 0 <= i < j < |s| ==> Before(s[i], s[j])
  }

  /** Sorted slots are a stable sort by key. */
  lemma SortedSlots<T(!new)>(items: seq<T>, key: T -> string, s: seq<Entry<T>>, r: seq<T>)
    requires Slots(items, key, s) && SortedEntries(s)
    requires |r| == |s| && forall i :: 0 <= i < |s| ==> r[i] == s[i].item
    ensures StableSortOf(items, ByKey(key), r)
  {
    var p := seq(|s|, i requires 0 <= i < |s| => s[i].index as int);
    forall i, j | 0 <= i < j < |p|
      ensures Stably(items, ByKey(key), p[i], p[j])
    {
      assert Before(s[i], s[j]);
      LessTrichotomy(s[i].key, s[j].key);
    }
    assert Orders(items, ByKey(key), p) && Picks(items, p, r);
  }

  method StableSortBy<T(!new)>(items: seq<T>, key: T -> string) returns (r: seq<T>)
    ensures StableSortOf(items, ByKey(key), r)
  {
    var indexed := new Entry<T>[|items|](i requires 0 <= i < |items| => Entry(items[i], i, key(items[i])));
    SortInPlace(indexed, items, key);
    r := [];
    for i := 0 to indexed.Length
      invariant |r| == i
      invariant forall k :: 0 <= k < i ==> r[k] == indexed[k].item
    {
      r := r + [indexed[i].item];
    }
    SortedSlots(items, key, indexed[..], r);
  }

  /** Sorts the entries in place by the comparator. */
  method SortInPlace<T(!new)>(a: array<Entry<T>>, ghost items: seq<T>, ghost key: T -> string)
    requires Slots(items, key, a[..])
    modifies a
    ensures Slots(items, key, a[..])
    ensures SortedEntries(a[..])
  {
    for i := 0 to a.Length
      invariant Slots(items, key, a[..])
      invariant SortedEntries(a[..i])
    {
      SinkLast(a, i, items, key);
    }
    assert a[..a.Length] == a[..];
  }

  /** Exchanging two neighbours keeps the slots. */
  lemma SwapKeepsSlots<T(!new)>(items: seq<T>, key: T -> string, s: seq<Entry<T>>, j: nat)
    requires Slots(items, key, s) && 0 < j < |s|
    ensures Slots(items, key, s[j - 1 := s[j]][j := s[j - 1]])
  {
    var t := s[j - 1 := s[j]][j := s[j - 1]];
    forall x, y | 0 <= x < y < |t|
      ensures t[x].index != t[y].index
    {
      var (x', y') := (Swapped(x, j), Swapped(y, j));
      assert t[x] == s[x'] && t[y] == s[y'];
      assert x' < y' || y' < x';
    }
  }

  function Swapped(x: int, j: int): int {
    if x == j then j - 1 else if x == j - 1 then j else x
  }

  /** Sorted up to `i`, except that the entry at `j` may still be too far back. */
  ghost predicate SortedExcept<T(!new)>(s: seq<Entry<T>>, i: nat, j: nat)
    requires j <= i < |s|
  {
    && (forall x, y :: 0 <= x < y <= i && x != j && y != j ==> Before(s[x], s[y]))
    && (forall y :: j < y <= i ==> Before(s[j], s[y]))
  }

  lemma SwapKeepsSortedExcept<T(!new)>(s: seq<Entry<T>>, i: nat, j: nat)
    requires 0 < j <= i < |s| && SortedExcept(s, i, j) && Before(s[j], s[j - 1])
    ensures SortedExcept(s[j - 1 := s[j]][j := s[j - 1]], i, j - 1)
  {
    var t := s[j - 1 := s[j]][j := s[j - 1]];
    forall x, y | 0 <= x < y <= i && x != j - 1 && y != j - 1
      ensures Before(t[x], t[y])
    {
      assert t[x] == s[Swapped(x, j)] && t[y] == s[Swapped(y, j)];
    }
  }

  lemma SunkIsSorted<T(!new)>(s: seq<Entry<T>>, i: nat, j: nat)
    requires j <= i < |s| && SortedExcept(s, i, j)
    requires j > 0 ==> Before(s[j - 1], s[j])
    ensures SortedEntries(s[..i + 1])
  {
    forall x, y | 0 <= x < y < i + 1
      ensures Before(s[x], s[y])
    {
      if y == j && x < j - 1 {
        BeforeTransitive(s[x], s[j - 1], s[j]);
      }
    }
  }

  /** Moves entry `i` down to its place among the sorted entries in front of it. */
  method SinkLast<T(!new)>(a: array<Entry<T>>, i: nat, ghost items: seq<T>, ghost key: T -> string)
    requires i < a.Length
    requires Slots(items, key, a[..]) && SortedEntries(a[..i])
    modifies a
    ensures Slots(items, key, a[..]) && SortedEntries(a[..i + 1])
  {
    var j := i;
    assert forall x :: 0 <= x < i ==> a[..][x] == a[..i][x];
    while j > 0 && Compare(a[j], a[j - 1]) < 0
      invariant 0 <= j <= i
      invariant Slots(items, key, a[..])
      invariant SortedExcept(a[..], i, j)
    {
      ghost var s := a[..];
      SwapKeepsSlots(items, key, s, j);
      SwapKeepsSortedExcept(s, i, j);
      a[j - 1], a[j] := a[j], a[j - 1];
      assert a[..] == s[j - 1 := s[j]][j := s[j - 1]];
      j := j - 1;
    }
    if j > 0 {
      assert a[..][j - 1].index != a[..][j].index;
      BeforeTotal(a[j - 1], a[j]);
    }
    SunkIsSorted(a[..], i, j);
  }
}
