/** Insertion: the top-down search insert (`insertTopDown` and its recursive
    worker), the bottom-up insert used by a correct hint (`insertBottomUp`
    with `insertAbove`), and the two hinted entry points for unique and
    duplicate keys. The random level is an input (`draw`, see ChooseLevel). */
module Insertion {
  import opened Levels
  import opened Skiplists
  import opened Search

  /** The outcome of an insert: the new list, the position of the inserted
      element (or of the element that blocked it), and whether it went in. */
  datatype Inserted = Inserted(list: Skiplist, pos: nat, success: bool)

  /** Level 0 with a new column placed at position p. */
  function Splice(cols: seq<Column>, p: nat, c: Column): (r: seq<Column>)
    requires p <= |cols|
    ensures |r| == |cols| + 1 && r[p] == c
    ensures forall m :: 0 <= m < p ==> r[m] == cols[m]
    ensures forall m :: p < m < |r| ==> r[m] == cols[m - 1]
  {
    cols[..p] + [c] + cols[p..]
  }

  lemma SpliceEntries(cols: seq<Column>, p: nat, c: Column)
    requires p <= |cols|
    ensures Entries(Splice(cols, p, c)) == Entries(cols[..p]) + [EntryOf(c)] + Entries(cols[p..])
  {
  }

  /** A column whose key fits between its two neighbours keeps level 0
      sorted. */
  lemma SpliceSorted(cols: seq<Column>, p: nat, c: Column, multimap: bool)
    requires p <= |cols| && SortedFor(cols, multimap)
    requires p > 0 ==> cols[p - 1].key <= c.key && (!multimap ==> cols[p - 1].key < c.key)
    requires p < |cols| ==> c.key <= cols[p].key && (!multimap ==> c.key < cols[p].key)
    ensures SortedFor(Splice(cols, p, c), multimap)
  {
    var r := Splice(cols, p, c);
    forall i, j | 0 <= i < j < |r|
      ensures r[i].key <= r[j].key && (!multimap ==> r[i].key < r[j].key)
    {
      if j < p {
      } else if j == p {
        assert i <= p - 1;
        assert cols[i].key <= cols[p - 1].key;
      } else if i > p {
      } else if i == p {
        assert cols[p].key <= cols[j - 1].key;
      } else {
        assert cols[i].key <= cols[p - 1].key;
        assert cols[p].key <= cols[j - 1].key;
      }
    }
  }

  /** Clipping columns that already fit changes nothing. */
  lemma ClipIdentity(cols: seq<Column>, levels: nat)
    requires HeightsFit(cols, levels)
    ensures Clip(cols, levels) == cols
  {
    var r := Clip(cols, levels);
    forall i | 0 <= i < |cols|
      ensures r[i] == cols[i]
    {
    }
  }

  /** The level count after one more element: one more level exactly when
      the count passes countMax. */
  function GrownLevels(count: nat, levels: nat): nat
  {
    if count + 1 > CountMax(levels) then levels + 1 else levels
  }

  /** A well-placed new column of fitting height leaves a list at rest with
      the grown level count. */
  lemma SpliceWellFormed(s: Skiplist, p: nat, c: Column)
    requires WellFormed(s) && p <= |s.cols|
    requires p > 0 ==> s.cols[p - 1].key <= c.key && (!s.multimap ==> s.cols[p - 1].key < c.key)
    requires p < |s.cols| ==> c.key <= s.cols[p].key && (!s.multimap ==> c.key < s.cols[p].key)
    requires 1 <= c.height <= GrownLevels(|s.cols|, s.levelCount)
    ensures WellFormed(Skiplist(Splice(s.cols, p, c), GrownLevels(|s.cols|, s.levelCount), false, s.multimap))
  {
    SpliceSorted(s.cols, p, c, s.multimap);
    AddLevelThresholds(s.levelCount);
  }

  /** With the plain comparator on unique keys, the element before the
      insertion point is either smaller than x or equal to it, and in the
      second case it is the only element with key x. */
  lemma UpperStopBlocked(cols: seq<Column>, x: int, p: nat)
    requires StrictlyIncreasing(cols) && IsFirstStop(cols, Upper, x, p)
    ensures (p > 0 && !(cols[p - 1].key < x)) <==> exists m :: 0 <= m < |cols| && cols[m].key == x
    ensures p > 0 && !(cols[p - 1].key < x) ==> cols[p - 1].key == x
  {
    if exists m :: 0 <= m < |cols| && cols[m].key == x {
      var m :| 0 <= m < |cols| && cols[m].key == x;
      assert m < p;
      assert forall i :: 0 <= i < p - 1 ==> cols[i].key < cols[p - 1].key;
    }
  }

  // ------------------------------------------------------------------
  // Top-down insert

  /** insertTopDown: pick the level (forced to the new top when a level has
      to be added because the count would pass countMax), descend from the
      top sentinel with the given comparator to the insertion point, and
      either reject an equivalent key (unique keys only: the temporarily
      added level is removed again) or link the new column there. */
  function InsertTopDown(s: Skiplist, key: int, val: int, b: Bound, draw: nat): (r: Inserted)
    requires WellFormed(s)
    requires b == Lower ==> s.multimap
    ensures WellFormed(r.list) && r.list.multimap == s.multimap
    ensures r.success <==> (s.multimap || forall m :: 0 <= m < |s.cols| ==> s.cols[m].key != key)
    ensures !r.success ==> r.list == s && r.pos < |s.cols| && s.cols[r.pos].key == key
    ensures r.success ==> IsFirstStop(s.cols, b, key, r.pos) && |r.list.cols| == |s.cols| + 1
    ensures r.success ==> r.list.cols == Splice(s.cols, r.pos, Column(key, val, r.list.cols[r.pos].height))
    ensures r.success ==> !r.list.balanced
    ensures r.success ==>
      (r.list.levelCount == s.levelCount + 1 <==> |s.cols| + 1 > CountMax(s.levelCount))
    ensures r.success && r.list.levelCount != s.levelCount + 1 ==>
      r.list.levelCount == s.levelCount && r.list.cols[r.pos].height == ChooseLevel(draw, s.levelCount)
    ensures r.success && r.list.levelCount == s.levelCount + 1 ==>
      r.list.cols[r.pos].height == r.list.levelCount
  {
    var levels := GrownLevels(|s.cols|, s.levelCount);
    var level := if levels == s.levelCount + 1 then levels else ChooseLevel(draw, s.levelCount);
    var p := Descend(s.cols, b, key, levels - 1, -1);
    if !s.multimap && p > 0 && !(s.cols[p - 1].key < key) then
      Reject(s, key, p)
    else
      TopDownPlaced(s, b, key, p);
      LinkAt(s, p, Column(key, val, level))
  }

  /** The blocked path of insertTopDown: the level added up front when the
      count would have passed countMax is removed again, since the count is
      now below the new minimum, and the list is back as it was. */
  function Reject(s: Skiplist, x: int, p: nat): (r: Inserted)
    requires WellFormed(s) && !s.multimap && IsFirstStop(s.cols, Upper, x, p)
    requires p > 0 && !(s.cols[p - 1].key < x)
    ensures r.list == s && !r.success && r.pos == p - 1 && s.cols[r.pos].key == x
    ensures exists m :: 0 <= m < |s.cols| && s.cols[m].key == x
  {
    var grow := |s.cols| + 1 > CountMax(s.levelCount);
    var s1 := if grow then AddLevel(s) else s;
    AddLevelThresholds(s.levelCount);
    var s2 := if |s1.cols| < CountMin(s1.levelCount) then RemoveLevel(s1) else s1;
    UpperStopBlocked(s.cols, x, p);
    BlockedLeavesListUnchanged(s, s1, s2, grow);
    Inserted(s2, p - 1, false)
  }

  /** The list with a new column linked at p (all its levels at once). */
  function LinkAt(s: Skiplist, p: nat, c: Column): (r: Inserted)
    requires WellFormed(s) && p <= |s.cols|
    requires p > 0 ==> s.cols[p - 1].key <= c.key && (!s.multimap ==> s.cols[p - 1].key < c.key)
    requires p < |s.cols| ==> c.key <= s.cols[p].key && (!s.multimap ==> c.key < s.cols[p].key)
    requires 1 <= c.height <= GrownLevels(|s.cols|, s.levelCount)
    ensures WellFormed(r.list) && r.list.multimap == s.multimap && !r.list.balanced
    ensures r.success && r.pos == p && r.list.levelCount == GrownLevels(|s.cols|, s.levelCount)
    ensures |r.list.cols| == |s.cols| + 1 && r.list.cols == Splice(s.cols, p, c)
  {
    SpliceWellFormed(s, p, c);
    Inserted(Skiplist(Splice(s.cols, p, c), GrownLevels(|s.cols|, s.levelCount), false, s.multimap), p, true)
  }

  /** An unblocked first stopping position fits the new key between its
      neighbours, and for unique keys it means the key is new. */
  lemma TopDownPlaced(s: Skiplist, b: Bound, x: int, p: nat)
    requires WellFormed(s) && (b == Lower ==> s.multimap) && IsFirstStop(s.cols, b, x, p)
    requires !(!s.multimap && p > 0 && !(s.cols[p - 1].key < x))
    ensures p > 0 ==> s.cols[p - 1].key <= x && (!s.multimap ==> s.cols[p - 1].key < x)
    ensures p < |s.cols| ==> x <= s.cols[p].key && (!s.multimap ==> x < s.cols[p].key)
    ensures !s.multimap ==> forall m :: 0 <= m < |s.cols| ==> s.cols[m].key != x
  {
    if !s.multimap {
      UpperStopBlocked(s.cols, x, p);
    }
  }

  lemma BlockedLeavesListUnchanged(s: Skiplist, s1: Skiplist, s2: Skiplist, grow: bool)
    requires WellFormed(s)
    requires grow <==> |s.cols| + 1 > CountMax(s.levelCount)
    requires s1 == if grow then AddLevel(s) else s
    requires s1.levelCount >= 1
    requires s2 == if |s1.cols| < CountMin(s1.levelCount) then RemoveLevel(s1) else s1
    ensures s2 == s
  {
    if grow {
      ClipIdentity(s.cols, s.levelCount);
    }
  }

  /** insert(value): the top-down insert with the plain key comparator, so a
      new element goes after every element with an equal key. A unique-key
      list rejects a key it already holds and returns that element; nothing
      at all changes then. */
  function Insert(s: Skiplist, e: Entry, draw: nat): (r: Inserted)
    requires WellFormed(s)
    ensures WellFormed(r.list) && r.list.multimap == s.multimap
    ensures r.success <==> (s.multimap || forall m :: 0 <= m < |s.cols| ==> s.cols[m].key != e.key)
    ensures !r.success ==> r.list == s && r.pos < |s.cols| && s.cols[r.pos].key == e.key
    ensures r.success ==> r.pos == UpperBound(s, e.key)
    ensures r.success ==> forall m :: 0 <= m < r.pos ==> s.cols[m].key <= e.key
    ensures r.success ==> forall m :: r.pos <= m < |s.cols| ==> e.key < s.cols[m].key
    ensures r.success ==>
      Entries(r.list.cols) == Entries(s.cols[..r.pos]) + [e] + Entries(s.cols[r.pos..])
    ensures r.success ==> |r.list.cols| == |s.cols| + 1 && !r.list.balanced
  {
    var r := InsertTopDown(s, e.key, e.val, Upper, draw);
    if r.success then
      InsertedAtUpperBound(s, e, r);
      r
    else
      r
  }

  lemma InsertedAtUpperBound(s: Skiplist, e: Entry, r: Inserted)
    requires WellFormed(s) && r.success && IsFirstStop(s.cols, Upper, e.key, r.pos)
    requires |r.list.cols| == |s.cols| + 1
    requires r.list.cols == Splice(s.cols, r.pos, Column(e.key, e.val, r.list.cols[r.pos].height))
    ensures r.pos == UpperBound(s, e.key)
    ensures forall m :: 0 <= m < r.pos ==> s.cols[m].key <= e.key
    ensures forall m :: r.pos <= m < |s.cols| ==> e.key < s.cols[m].key
    ensures Entries(r.list.cols) == Entries(s.cols[..r.pos]) + [e] + Entries(s.cols[r.pos..])
  {
    FirstStopUnique(s.cols, Upper, e.key, r.pos, UpperBound(s, e.key));
    SpliceEntries(s.cols, r.pos, r.list.cols[r.pos]);
  }

  /** Equal keys keep insertion order: of two elements with the same key
      inserted one after the other into a duplicate-key list, the later one
      lands after the earlier one, which stays where it was put. */
  lemma InsertKeepsInsertionOrder(s: Skiplist, e1: Entry, e2: Entry, d1: nat, d2: nat)
    requires WellFormed(s) && s.multimap && e1.key == e2.key
    ensures
      var r1 := Insert(s, e1, d1);
      var r2 := Insert(r1.list, e2, d2);
      r1.pos < r2.pos && EntryOf(r2.list.cols[r1.pos]) == e1 && EntryOf(r2.list.cols[r2.pos]) == e2
  {
    var r1 := Insert(s, e1, d1);
    var r2 := Insert(r1.list, e2, d2);
    assert EntryOf(r1.list.cols[r1.pos]) == e1 by {
      assert Entries(r1.list.cols)[r1.pos] == e1;
    }
    assert r1.list.cols[r1.pos].key <= e2.key;
    assert r2.list.cols[r1.pos] == r1.list.cols[r1.pos];
    assert Entries(r2.list.cols)[r2.pos] == e2;
  }

  /** The first insert into a default-constructed list adds the first
      level and puts the element in it. */
  lemma InsertIntoEmpty(multimap: bool, e: Entry, draw: nat)
    ensures
      var r := Insert(Empty(multimap), e, draw);
      && r.success && r.pos == 0 && Entries(r.list.cols) == [e]
      && r.list.levelCount == 1 && r.list.cols[0].height == 1
  {
    var s := Empty(multimap);
    var r := Insert(s, e, draw);
    assert Entries(s.cols[..0]) == [] && Entries(s.cols[0..]) == [];
  }

  // ------------------------------------------------------------------
  // The links the recursive worker sets up

  /** The node the top-down descent stands on when it allocates the new
      column's node on level t (for t at or below the starting level). */
  function HeadAt(cols: seq<Column>, b: Bound, x: int, l: nat, i: int, t: nat): (h: int)
    requires NonDecreasing(cols) && AllPresent(cols)
    requires OnLevel(cols, l, i) && t <= l
    requires forall m :: 0 <= m <= i ==> !Stops(b, x, cols[m].key)
    ensures OnLevel(cols, t, h) && i <= h
    ensures forall m :: 0 <= m <= h ==> !Stops(b, x, cols[m].key)
    ensures NextAt(cols, t, h) == |cols| || Stops(b, x, cols[NextAt(cols, t, h)].key)
    decreases l, |cols| - i
  {
    var next := NextAt(cols, l, i);
    if next == |cols| || Stops(b, x, cols[next].key) then
      if l == t then i else HeadAt(cols, b, x, l - 1, i, t)
    else
      HeadAt(cols, b, x, l, next, t)
  }

  /** A column spliced in at p, right after node h of level t and no later
      than h's Next there, is linked between them on level t. */
  lemma SpliceLinks(cols: seq<Column>, t: nat, p: nat, h: int, c: Column)
    requires p <= |cols| && -1 <= h < p && OnLevel(cols, t, h) && t < c.height
    requires p <= NextAt(cols, t, h)
    ensures PrevAt(Splice(cols, p, c), t, p) == h
    ensures NextAt(Splice(cols, p, c), t, p) == NextAt(cols, t, h) + 1
  {
    var n := NextAt(cols, t, h);
    var cols' := Splice(cols, p, c);
    PrevUnique(cols', t, p, h);
    if n < |cols| {
      assert cols'[n + 1] == cols[n];
      NextUnique(cols', t, p, n + 1);
    }
  }

  /** The "zip" of insertTopDown is sound: on every level t the new column
      reaches, the node allocated there has as Prev the node the descent
      stood on and as Next that node's old Next, which is exactly where the
      derived level of the new list puts it. */
  lemma TopDownLinks(s: Skiplist, b: Bound, x: int, t: nat, c: Column)
    requires Valid(s) && s.levelCount >= 1 && t < s.levelCount && t < c.height
    ensures
      var p := Descend(s.cols, b, x, s.levelCount - 1, -1);
      var h := HeadAt(s.cols, b, x, s.levelCount - 1, -1, t);
      && h < p <= NextAt(s.cols, t, h)
      && PrevAt(Splice(s.cols, p, c), t, p) == h
      && NextAt(Splice(s.cols, p, c), t, p) == NextAt(s.cols, t, h) + 1
  {
    var p := Descend(s.cols, b, x, s.levelCount - 1, -1);
    var h := HeadAt(s.cols, b, x, s.levelCount - 1, -1, t);
    var n := NextAt(s.cols, t, h);
    assert h < p by {
      if h >= 0 {
        assert !Stops(b, x, s.cols[h].key);
      }
    }
    SpliceLinks(s.cols, t, p, h, c);
  }

  // ------------------------------------------------------------------
  // Bottom-up insert

  datatype Climb = Climb(at: int) | Top

  /** The walk of insertAbove: from node (l, i), go left along level l until
      a node with an Up link; the sentinel has one unless l is the top level
      ("reached the very top"). */
  function WalkLeft(cols: seq<Column>, levels: nat, l: nat, i: int): (r: Climb)
    requires OnLevel(cols, l, i) && l < levels && HeightsFit(cols, levels)
    ensures r.Climb? ==>
      && -1 <= r.at <= i && OnLevel(cols, l + 1, r.at) && l + 1 < levels
      && forall m :: r.at < m <= i ==> cols[m].height <= l + 1
    ensures r.Top? ==> l + 1 == levels
    decreases i + 1
  {
    if i == -1 then
      if l + 1 < levels then Climb(-1) else Top
    else if cols[i].height > l + 1 then Climb(i)
    else WalkLeft(cols, levels, l, PrevAt(cols, l, i))
  }

  /** insertAbove: lowerNode is the top node (l, j) of column j, and current
      is a node on level l at or before it with nothing taller than level
      l + 1 in between. Each step walks left to a node with an Up link,
      climbs, and links a new node of column j after it; the requires of the
      recursive call is exactly the statement that this node is j's
      predecessor on the new level. The column grows by `depth` levels or
      until it reaches the top level, and nothing else changes. */
  function InsertAbove(cols: seq<Column>, levels: nat, current: int, depth: nat, j: nat, l: nat): (r: seq<Column>)
    requires j < |cols| && cols[j].height == l + 1 && l < levels && HeightsFit(cols, levels)
    requires OnLevel(cols, l, current) && current <= j
    requires forall m :: current < m < j ==> cols[m].height <= l + 1
    ensures |r| == |cols|
    ensures forall m :: 0 <= m < |cols| && m != j ==> r[m] == cols[m]
    ensures r[j] == cols[j].(height := Min(l + 1 + depth, levels))
    decreases depth
  {
    if depth == 0 then cols
    else
      match WalkLeft(cols, levels, l, current)
      case Top => cols
      case Climb(a) =>
        InsertAbove(cols[j := cols[j].(height := l + 2)], levels, a, depth - 1, j, l + 1)
  }

  /** insertBottomUp: link a new column right after `prev` (-1: the sentinel,
      which is also where a null predecessor leads) and raise it with
      insertAbove to the drawn level, or to the new top when the count
      passes countMax. */
  function InsertBottomUp(s: Skiplist, prev: int, key: int, val: int, draw: nat): (r: Inserted)
    requires WellFormed(s) && -1 <= prev < |s.cols|
    requires prev >= 0 ==> s.cols[prev].key <= key && (!s.multimap ==> s.cols[prev].key < key)
    requires prev + 1 < |s.cols| ==> key <= s.cols[prev + 1].key && (!s.multimap ==> key < s.cols[prev + 1].key)
    ensures WellFormed(r.list) && r.list.multimap == s.multimap
    ensures r.success && r.pos == prev + 1 && !r.list.balanced && |r.list.cols| == |s.cols| + 1
    ensures r.list.cols == Splice(s.cols, r.pos, Column(key, val, r.list.cols[r.pos].height))
    ensures r.list.levelCount == s.levelCount + 1 <==> |s.cols| + 1 > CountMax(s.levelCount)
    ensures r.list.levelCount != s.levelCount + 1 ==>
      r.list.levelCount == s.levelCount && r.list.cols[r.pos].height == ChooseLevel(draw, s.levelCount)
    ensures r.list.levelCount == s.levelCount + 1 ==> r.list.cols[r.pos].height == r.list.levelCount
  {
    var p := prev + 1;
    var levels := GrownLevels(|s.cols|, s.levelCount);
    var level := if levels == s.levelCount + 1 then levels else ChooseLevel(draw, s.levelCount);
    var c := Column(key, val, 1);
    var cols := if level > 1 then RaiseNew(s, p, c, levels, level) else Splice(s.cols, p, c);
    var raised := Skiplist(cols, levels, false, s.multimap);
    assert raised == LinkAt(s, p, c.(height := level)).list;
    Inserted(raised, p, true)
  }

  /** insertAbove from the predecessor raises the freshly linked column, of
      height 1, to the requested level and to nothing else. */
  function RaiseNew(s: Skiplist, p: nat, c: Column, levels: nat, level: nat): (r: seq<Column>)
    requires WellFormed(s) && p <= |s.cols| && c.height == 1
    requires levels == GrownLevels(|s.cols|, s.levelCount) && 1 < level <= levels
    ensures r == Splice(s.cols, p, c.(height := level))
  {
    AddLevelThresholds(s.levelCount);
    var cols0 := Splice(s.cols, p, c);
    var r := InsertAbove(cols0, levels, p - 1, level - 1, p, 0);
    assert forall m :: 0 <= m < |r| ==> r[m] == Splice(s.cols, p, c.(height := level))[m];
    r
  }

  // ------------------------------------------------------------------
  // Hinted insert

  /** insert(hint, value) for unique keys. b is the hint position and a the
      element before it (the tail when the hint is the end). A correct hint
      (a < x < b, open at either end) inserts right there bottom-up; a key
      equal to a or b is blocked by it; any other hint falls back to the full
      search insert. */
  function InsertWithHintMap(s: Skiplist, hint: nat, e: Entry, draw: nat): (r: Inserted)
    requires WellFormed(s) && !s.multimap && hint <= |s.cols|
    ensures WellFormed(r.list)
    ensures (hint == 0 || s.cols[hint - 1].key < e.key) && (hint == |s.cols| || e.key < s.cols[hint].key) ==>
      r.success && r.pos == hint
    ensures hint > 0 && s.cols[hint - 1].key == e.key ==> !r.success && r.pos == hint - 1
    ensures hint < |s.cols| && s.cols[hint].key == e.key ==> !r.success && r.pos == hint
  {
    var x := e.key;
    if hint == |s.cols| || x < s.cols[hint].key then
      if hint == 0 || s.cols[hint - 1].key < x then
        InsertBottomUp(s, hint - 1, x, e.val, draw)
      else if x < s.cols[hint - 1].key then
        InsertTopDown(s, x, e.val, Upper, draw)
      else
        Inserted(s, hint - 1, false)
    else if s.cols[hint].key < x then
      InsertTopDown(s, x, e.val, Upper, draw)
    else
      Inserted(s, hint, false)
  }

  /** For unique keys the hint only changes the cost: the hinted insert
      produces exactly the list and position of the plain insert. */
  lemma HintedMapMatchesInsert(s: Skiplist, hint: nat, e: Entry, draw: nat)
    requires WellFormed(s) && !s.multimap && hint <= |s.cols|
    ensures InsertWithHintMap(s, hint, e, draw) == Insert(s, e, draw)
  {
    var x := e.key;
    var r := Insert(s, e, draw);
    var h := InsertWithHintMap(s, hint, e, draw);
    if hint == |s.cols| || x < s.cols[hint].key {
      if hint == 0 || s.cols[hint - 1].key < x {
        assert r.success;
        FirstStopUnique(s.cols, Upper, x, r.pos, hint);
      } else if x < s.cols[hint - 1].key {
      } else {
        assert !r.success;
        assert s.cols[r.pos].key == x;
        assert r.pos == hint - 1;
      }
    } else if s.cols[hint].key < x {
    } else {
      assert !r.success;
      assert r.pos == hint;
    }
  }

  /** insert(hint, value) for duplicate keys. A hint whose element is smaller
      than x falls back to the lower bound of x's equal range; one whose
      predecessor is greater than x falls back to the upper bound; otherwise
      (a <= x <= b) x goes right before the hint. */
  function InsertWithHintMultimap(s: Skiplist, hint: nat, e: Entry, draw: nat): (r: Inserted)
    requires WellFormed(s) && s.multimap && hint <= |s.cols|
    ensures WellFormed(r.list) && r.success && !r.list.balanced
    ensures r.pos <= |s.cols| && |r.list.cols| == |s.cols| + 1
    ensures r.list.cols == Splice(s.cols, r.pos, Column(e.key, e.val, r.list.cols[r.pos].height))
    ensures hint < |s.cols| && s.cols[hint].key < e.key ==> r.pos == LowerBound(s, e.key)
    ensures !(hint < |s.cols| && s.cols[hint].key < e.key) && hint > 0 && e.key < s.cols[hint - 1].key ==>
      r.pos == UpperBound(s, e.key)
    ensures !(hint < |s.cols| && s.cols[hint].key < e.key) && !(hint > 0 && e.key < s.cols[hint - 1].key) ==>
      r.pos == hint
  {
    var x := e.key;
    if hint < |s.cols| && s.cols[hint].key < x then
      var r := InsertTopDown(s, x, e.val, Lower, draw);
      FirstStopUnique(s.cols, Lower, x, r.pos, LowerBound(s, x));
      r
    else if hint > 0 && x < s.cols[hint - 1].key then
      var r := InsertTopDown(s, x, e.val, Upper, draw);
      FirstStopUnique(s.cols, Upper, x, r.pos, UpperBound(s, x));
      r
    else
      InsertBottomUp(s, hint - 1, x, e.val, draw)
  }
}
