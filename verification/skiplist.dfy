/** The skiplist state, abstracted from its pointer graph.

    Every upper level of the source's node graph is an order-preserving
    subsequence of the level below, and an upper node always shares its
    payload with the node under it. The graph is therefore fixed by the
    level-0 sequence of elements, the height of each element's column, and
    the number of levels (the height of the sentinel column). Level l
    (0-based) holds exactly the columns whose height exceeds l; a node is a
    pair (level, index), index -1 being the sentinel of that level. */
module Skiplists {
  import opened Levels

  /** One element: its payload and the number of levels its column spans. */
  datatype Column = Column(key: int, val: int, height: nat)

  /** The payload of an element, as the container's users see it. */
  datatype Entry = Entry(key: int, val: int)

  datatype Skiplist = Skiplist(
    cols: seq<Column>,     // level 0, in order
    levelCount: nat,       // height of the sentinel column
    balanced: bool,        // the source's m_balanced flag
    multimap: bool)        // duplicate keys allowed

  /** A default-constructed container: no head, no levels, balanced. */
  function Empty(multimap: bool): (s: Skiplist)
    ensures WellFormed(s) && s.balanced && s.multimap == multimap
    ensures Entries(s.cols) == []
  {
    Skiplist([], 0, true, multimap)
  }

  function EntryOf(c: Column): Entry
  {
    Entry(c.key, c.val)
  }

  /** The contents of a level-0 sequence, with the structure forgotten. */
  function Entries(cols: seq<Column>): (es: seq<Entry>)
    ensures |es| == |cols|
    ensures forall i :: 0 <= i < |cols| ==> es[i] == EntryOf(cols[i])
  {
    seq(|cols|, i requires 0 <= i < |cols| => EntryOf(cols[i]))
  }

  lemma EntriesConcat(a: seq<Column>, b: seq<Column>)
    ensures Entries(a + b) == Entries(a) + Entries(b)
  {
  }

  // ------------------------------------------------------------------
  // The validator's invariant

  predicate NonDecreasing(cols: seq<Column>)
  {
    forall i, j :: 0 <= i < j < |cols| ==> cols[i].key <= cols[j].key
  }

  predicate StrictlyIncreasing(cols: seq<Column>)
  {
    forall i, j :: 0 <= i < j < |cols| ==> cols[i].key < cols[j].key
  }

  /** Level 0 is sorted: non-decreasing with duplicate keys, strictly
      increasing with unique keys. */
  predicate SortedFor(cols: seq<Column>, multimap: bool)
  {
    if multimap then NonDecreasing(cols) else StrictlyIncreasing(cols)
  }

  /** Every column has a level-0 node and no node above the top level. */
  predicate HeightsFit(cols: seq<Column>, levels: nat)
  {
    forall i :: 0 <= i < |cols| ==> 1 <= cols[i].height <= levels
  }

  /** The canonical shape: the element with 1-based index k is in
      BalancedLevel(k) levels, so level l holds every 2^l-th element. */
  predicate Canonical(cols: seq<Column>, levels: nat)
  {
    forall i :: 0 <= i < |cols| ==> cols[i].height == BalancedLevel(i + 1, levels)
  }

  /** What SkiplistDebug::Validate accepts, stated on the abstraction: a head
      exists exactly when there are elements, level 0 is sorted, columns fit
      under the sentinel column, and a list flagged balanced has the canonical
      shape. */
  predicate Valid(s: Skiplist)
  {
    && (s.levelCount == 0 <==> |s.cols| == 0)
    && SortedFor(s.cols, s.multimap)
    && HeightsFit(s.cols, s.levelCount)
    && (s.balanced ==> Canonical(s.cols, s.levelCount))
  }

  /** A container at rest: valid, and the element count lies between the
      thresholds of its level count. */
  predicate WellFormed(s: Skiplist)
  {
    Valid(s) && Settled(|s.cols|, s.levelCount)
  }

  /** At rest once the balanced flag is disregarded: what a list is between
      the steps of a balancing iterator, whose flag is set only at the end. */
  predicate Shaped(s: Skiplist)
  {
    WellFormed(s.(balanced := false))
  }

  /** Sortedness depends on the keys alone. */
  lemma SameKeysSorted(a: seq<Column>, b: seq<Column>, multimap: bool)
    requires |a| == |b| && forall i :: 0 <= i < |a| ==> a[i].key == b[i].key
    requires SortedFor(a, multimap)
    ensures SortedFor(b, multimap)
  {
    forall i, j | 0 <= i < j < |b|
      ensures b[i].key <= b[j].key && (!multimap ==> b[i].key < b[j].key)
    {
      assert a[i].key <= a[j].key;
    }
  }

  /** The level-0 scan of the validator, comparing neighbours only, as the
      source does. It accepts exactly the valid states. */
  method Validate(s: Skiplist) returns (ok: bool)
    ensures ok <==> Valid(s)
  {
    if s.levelCount == 0 {
      // no head: there must be no begin, no tail and no elements
      return |s.cols| == 0;
    }
    if |s.cols| == 0 {
      return false;
    }
    var i := 0;
    while i < |s.cols|
      invariant 0 <= i <= |s.cols|
      invariant SortedFor(s.cols[..i], s.multimap)
      invariant HeightsFit(s.cols[..i], s.levelCount)
      invariant s.balanced ==> Canonical(s.cols[..i], s.levelCount)
    {
      var c := s.cols[i];
      if i > 0 {
        var p := s.cols[i - 1];
        if c.key < p.key || (!s.multimap && !(p.key < c.key)) {
          assert !SortedFor(s.cols, s.multimap) by {
            assert s.cols[i - 1].key == p.key && s.cols[i].key == c.key;
          }
          return false;
        }
      }
      if c.height < 1 || c.height > s.levelCount {
        assert !HeightsFit(s.cols, s.levelCount) by {
          assert s.cols[i].height == c.height;
        }
        return false;
      }
      if s.balanced && c.height != BalancedLevel(i + 1, s.levelCount) {
        assert !Canonical(s.cols, s.levelCount) by {
          assert s.cols[i].height == c.height;
        }
        return false;
      }
      assert s.cols[..i + 1] == s.cols[..i] + [c];
      i := i + 1;
    }
    assert s.cols[..i] == s.cols;
    return true;
  }

  // ------------------------------------------------------------------
  // Links of the derived node graph

  /** The node is present: the sentinel, or a column tall enough for level l. */
  predicate OnLevel(cols: seq<Column>, l: nat, i: int)
  {
    -1 <= i < |cols| && (i == -1 || cols[i].height > l)
  }

  /** `Next` of node (l, i): the first later column present on level l, or
      |cols| when there is none (a null link). */
  function NextAt(cols: seq<Column>, l: nat, i: int): (j: int)
    requires -1 <= i < |cols|
    ensures i < j <= |cols|
    ensures j < |cols| ==> cols[j].height > l
    ensures forall m :: i < m < j ==> cols[m].height <= l
    decreases |cols| - i
  {
    if i + 1 == |cols| || cols[i + 1].height > l then i + 1 else NextAt(cols, l, i + 1)
  }

  /** `Prev` of node (l, j): the last earlier column present on level l, or
      the sentinel -1. */
  function PrevAt(cols: seq<Column>, l: nat, j: int): (i: int)
    requires 0 <= j <= |cols|
    ensures -1 <= i < j
    ensures i >= 0 ==> cols[i].height > l
    ensures forall m :: i < m < j ==> cols[m].height <= l
    decreases j
  {
    if j == 0 then -1 else if cols[j - 1].height > l then j - 1 else PrevAt(cols, l, j - 1)
  }

  /** The links within every level are mutually consistent: Prev(Next(n)) is n
      and Next(Prev(n)) is n, and each level is ordered as level 0 is. */
  lemma LinksConsistent(s: Skiplist, l: nat, i: int)
    requires Valid(s)
    requires OnLevel(s.cols, l, i)
    ensures NextAt(s.cols, l, i) < |s.cols| ==> PrevAt(s.cols, l, NextAt(s.cols, l, i)) == i
    ensures i >= 0 ==> NextAt(s.cols, l, PrevAt(s.cols, l, i)) == i
    ensures i >= 0 && NextAt(s.cols, l, i) < |s.cols| ==>
      s.cols[i].key <= s.cols[NextAt(s.cols, l, i)].key &&
      (!s.multimap ==> s.cols[i].key < s.cols[NextAt(s.cols, l, i)].key)
  {
    var j := NextAt(s.cols, l, i);
    if j < |s.cols| {
      PrevUnique(s.cols, l, j, i);
    }
    if i >= 0 {
      NextUnique(s.cols, l, PrevAt(s.cols, l, i), i);
    }
  }

  lemma PrevUnique(cols: seq<Column>, l: nat, j: int, i: int)
    requires 0 <= j <= |cols| && OnLevel(cols, l, i) && i < j
    requires forall m :: i < m < j ==> cols[m].height <= l
    ensures PrevAt(cols, l, j) == i
  {
  }

  lemma NextUnique(cols: seq<Column>, l: nat, i: int, j: int)
    requires -1 <= i < j < |cols| && cols[j].height > l
    requires forall m :: i < m < j ==> cols[m].height <= l
    ensures NextAt(cols, l, i) == j
  {
  }

  // ------------------------------------------------------------------
  // Level bookkeeping (updateMinMax, addLevel, removeLevel)

  /** addLevel: a new sentinel-only level on top. The thresholds move up to the
      next power of two, and every column keeps its height. */
  function AddLevel(s: Skiplist): (r: Skiplist)
    ensures r.levelCount == s.levelCount + 1
    ensures r.cols == s.cols && r.balanced == s.balanced && r.multimap == s.multimap
    ensures CountMin(r.levelCount) == CountMax(s.levelCount) + 1
    ensures CountMax(r.levelCount) == 2 * CountMax(s.levelCount) + 1
    ensures Valid(s) && |s.cols| > 0 ==> Valid(r)
  {
    AddLevelThresholds(s.levelCount);
    s.(levelCount := s.levelCount + 1)
  }

  /** Columns clipped to `levels`: the top nodes of every column taller than
      the level count are gone. */
  function Clip(cols: seq<Column>, levels: nat): (r: seq<Column>)
    ensures |r| == |cols|
    ensures forall i :: 0 <= i < |cols| ==>
      r[i].key == cols[i].key && r[i].val == cols[i].val &&
      r[i].height == (if cols[i].height <= levels then cols[i].height else levels)
  {
    seq(|cols|, i requires 0 <= i < |cols| =>
      cols[i].(height := if cols[i].height <= levels then cols[i].height else levels))
  }

  lemma ClipKeepsEntries(cols: seq<Column>, levels: nat)
    ensures Entries(Clip(cols, levels)) == Entries(cols)
  {
  }

  /** removeLevel: drop the top level. The source asserts that the count is
      below the minimum first. Contents are untouched, and a valid list stays
      valid: its canonical heights already fit under the lower top. */
  function RemoveLevel(s: Skiplist): (r: Skiplist)
    requires s.levelCount >= 1 && |s.cols| < CountMin(s.levelCount)
    ensures r.levelCount == s.levelCount - 1
    ensures Entries(r.cols) == Entries(s.cols)
    ensures forall i :: 0 <= i < |s.cols| && s.cols[i].height < s.levelCount ==>
      r.cols[i].height == s.cols[i].height
    ensures forall i :: 0 <= i < |s.cols| ==> r.cols[i].height <= r.levelCount
    ensures forall i :: 0 <= i < |s.cols| ==>
      r.cols[i] == s.cols[i].(height := Min(s.cols[i].height, r.levelCount))
    ensures r.balanced == s.balanced && r.multimap == s.multimap
    ensures |s.cols| <= CountMax(r.levelCount)
    ensures Valid(s) ==> Valid(r)
  {
    var r := s.(levelCount := s.levelCount - 1, cols := Clip(s.cols, s.levelCount - 1));
    ClipKeepsEntries(s.cols, s.levelCount - 1);
    ClipKeepsCanonical(s.cols, s.levelCount);
    r
  }

  lemma ClipKeepsCanonical(cols: seq<Column>, levels: nat)
    requires levels >= 1 && |cols| < CountMin(levels)
    ensures Canonical(cols, levels) ==> Canonical(Clip(cols, levels - 1), levels - 1)
  {
    if Canonical(cols, levels) {
      forall i | 0 <= i < |cols|
        ensures cols[i].height <= levels - 1
      {
        RulerBound(i + 1, levels - 1);
      }
    }
  }

  // ------------------------------------------------------------------
  // Node count (SkiplistDebug::CountNodes)

  /** Number of columns present on level l. */
  function LevelSize(cols: seq<Column>, l: nat): nat
  {
    if |cols| == 0 then 0
    else LevelSize(cols[..|cols| - 1], l) + (if cols[|cols| - 1].height > l then 1 else 0)
  }

  /** Nodes on levels 0 .. k-1, sentinels included, counted level by level as
      the source walks them. */
  function NodesBelow(cols: seq<Column>, k: nat): nat
  {
    if k == 0 then 0 else NodesBelow(cols, k - 1) + 1 + LevelSize(cols, k - 1)
  }

  function CountNodes(s: Skiplist): nat
  {
    NodesBelow(s.cols, s.levelCount)
  }

  function SumHeights(cols: seq<Column>): nat
  {
    if |cols| == 0 then 0 else SumHeights(cols[..|cols| - 1]) + cols[|cols| - 1].height
  }

  function Min(a: nat, b: nat): nat
  {
    if a <= b then a else b
  }

  lemma {:induction false} NodesBelowSnoc(cols: seq<Column>, c: Column, k: nat)
    ensures NodesBelow(cols + [c], k) == NodesBelow(cols, k) + Min(c.height, k)
    decreases k
  {
    if k > 0 {
      NodesBelowSnoc(cols, c, k - 1);
      assert (cols + [c])[..|cols + [c]| - 1] == cols;
    }
  }

  lemma {:induction false} NodesBelowEmpty(k: nat)
    ensures NodesBelow([], k) == k
    decreases k
  {
    if k > 0 {
      NodesBelowEmpty(k - 1);
    }
  }

  lemma {:induction false} NodesBelowHeights(cols: seq<Column>, k: nat)
    requires HeightsFit(cols, k)
    ensures NodesBelow(cols, k) == k + SumHeights(cols)
    decreases |cols|
  {
    if |cols| == 0 {
      NodesBelowEmpty(k);
    } else {
      var init := cols[..|cols| - 1];
      var c := cols[|cols| - 1];
      assert cols == init + [c];
      NodesBelowHeights(init, k);
      NodesBelowSnoc(init, c, k);
    }
  }

  /** The node count is the sentinel column plus one node per level of every
      column. */
  lemma CountNodesClosedForm(s: Skiplist)
    requires Valid(s)
    ensures CountNodes(s) == s.levelCount + SumHeights(s.cols)
  {
    NodesBelowHeights(s.cols, s.levelCount);
  }
}
