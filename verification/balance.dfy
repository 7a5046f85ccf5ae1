/** Balancing: `balanceWorker` (behind balance() and the balancing
    for_each), the copy constructor that builds a balanced copy, and the
    balancing iterator, which fixes one column per step and marks the
    container balanced after a full sweep. */
module Balance {
  import opened Levels
  import opened Skiplists
  import opened Insertion
  import opened Erase
  import opened Iterators

  /** Level 0 with every column cut or raised to its canonical height. */
  function CanonicalCols(cols: seq<Column>, levels: nat): (r: seq<Column>)
    ensures |r| == |cols| && Canonical(r, levels) && Entries(r) == Entries(cols)
    ensures forall i :: 0 <= i < |cols| ==> r[i].key == cols[i].key
  {
    seq(|cols|, i requires 0 <= i < |cols| => cols[i].(height := BalancedLevel(i + 1, levels)))
  }

  /** The canonical heights of a list at rest fit under its level count. */
  lemma CanonicalFits(cols: seq<Column>, levels: nat)
    requires |cols| <= CountMax(levels) && Canonical(cols, levels)
    ensures HeightsFit(cols, levels)
  {
    forall i | 0 <= i < |cols|
      ensures 1 <= cols[i].height <= levels
    {
      RulerBound(i + 1, levels);
    }
  }

  /** balanceWorker: nothing to do when the flag says balanced; otherwise
      the flag is set and, if there is a head, every upper level is rebuilt
      so that the element with 1-based index k is in Ruler(k) levels. */
  function BalanceWorker(s: Skiplist): (r: Skiplist)
    requires WellFormed(s)
    ensures WellFormed(r) && r.balanced
    ensures r.levelCount == s.levelCount && r.multimap == s.multimap
    ensures Entries(r.cols) == Entries(s.cols)
    ensures s.balanced ==> r == s
  {
    if s.balanced then s
    else if s.levelCount == 0 then s.(balanced := true)
    else
      var cols := CanonicalCols(s.cols, s.levelCount);
      CanonicalFits(cols, s.levelCount);
      SameKeysSorted(s.cols, cols, s.multimap);
      s.(balanced := true, cols := cols)
  }

  /** A balanced list at rest is determined by its contents: two of them
      holding the same elements are identical, levels and heights included. */
  lemma BalancedShapeUnique(a: Skiplist, b: Skiplist)
    requires WellFormed(a) && WellFormed(b) && a.balanced && b.balanced
    requires a.multimap == b.multimap && Entries(a.cols) == Entries(b.cols)
    ensures a == b
  {
    SettledIffBitLength(|a.cols|, a.levelCount);
    SettledIffBitLength(|b.cols|, b.levelCount);
    forall i | 0 <= i < |a.cols|
      ensures a.cols[i] == b.cols[i]
    {
      assert Entries(a.cols)[i] == Entries(b.cols)[i];
    }
  }

  /** Balancing twice is balancing once. */
  lemma BalanceIdempotent(s: Skiplist)
    requires WellFormed(s)
    ensures BalanceWorker(BalanceWorker(s)) == BalanceWorker(s)
  {
  }

  /** The copy constructor: an empty source gives a default-constructed
      list; otherwise level 0 is copied, the level count is
      floor(log2 n) + 1 (exact here, floating point in the source), and the
      element with 1-based index k gets calcBalancedLevel(k) levels. The
      copy is the balanced form of the original. */
  method CopyConstruct(other: Skiplist) returns (r: Skiplist)
    requires Valid(other)
    ensures WellFormed(r) && r.balanced && r.multimap == other.multimap
    ensures Entries(r.cols) == Entries(other.cols)
    ensures r.levelCount == BitLength(|other.cols|)
    ensures WellFormed(other) ==> r == BalanceWorker(other)
  {
    var n := |other.cols|;
    if n == 0 {
      r := Empty(other.multimap);
    } else {
      var levels := BitLength(n);
      BitLengthBounds(n);
      var cols: seq<Column> := [];
      if n == 1 {
        // a single element: only the bottom list exists
        cols := [other.cols[0].(height := 1)];
      } else {
        var i := 0;
        while i < n
          invariant 0 <= i <= n && |cols| == i
          invariant forall m :: 0 <= m < i ==> cols[m] == other.cols[m].(height := BalancedLevel(m + 1, levels))
        {
          var level := CalcBalancedLevel(i + 1, levels);
          cols := cols + [other.cols[i].(height := level)];
          i := i + 1;
        }
      }
      assert cols == CanonicalCols(other.cols, levels);
      CanonicalFits(cols, levels);
      SameKeysSorted(other.cols, cols, other.multimap);
      SettledIffBitLength(n, levels);
      r := Skiplist(cols, levels, true, other.multimap);
    }
    SettledIffBitLength(n, r.levelCount);
    if WellFormed(other) {
      BalancedShapeUnique(r, BalanceWorker(other));
    }
  }

  // ------------------------------------------------------------------
  // The balancing iterator

  /** The iterator's balance(): the desired height is calcBalancedLevel of
      the index the iterator believes it is at, plus one. The column's
      height is counted and the nodes above the desired height are erased,
      or new ones are added with insertAbove, which stops at the top level.
      Only that column changes. */
  function BalanceAt(s: Skiplist, pos: nat, index: int): (r: Skiplist)
    requires Shaped(s) && pos < |s.cols| && index >= 0
    ensures Shaped(r)
    ensures r.levelCount == s.levelCount && r.balanced == s.balanced && r.multimap == s.multimap
    ensures |r.cols| == |s.cols| && Entries(r.cols) == Entries(s.cols)
    ensures r.cols == s.cols[pos := s.cols[pos].(height := Min(Ruler(index + 1), s.levelCount))]
  {
    var cols := FixHeight(s.cols, s.levelCount, pos, Ruler(index + 1));
    SameKeysSorted(s.cols, cols, s.multimap);
    s.(cols := cols)
  }

  /** The height count and repair of balance(): too tall, erase above the
      node at the desired height; too short, insertAbove from the top node,
      which cannot climb past the top level. */
  function FixHeight(cols: seq<Column>, levels: nat, pos: nat, desired: nat): (r: seq<Column>)
    requires HeightsFit(cols, levels) && pos < |cols| && 1 <= desired
    ensures |r| == |cols| && HeightsFit(r, levels) && Entries(r) == Entries(cols)
    ensures r[pos] == cols[pos].(height := Min(desired, levels))
    ensures forall m :: 0 <= m < |cols| && m != pos ==> r[m] == cols[m]
    ensures forall m :: 0 <= m < |cols| ==> r[m].key == cols[m].key
  {
    var h := cols[pos].height;
    if h > desired then EraseAbove(cols, pos, desired - 1)
    else if h < desired then InsertAbove(cols, levels, pos, desired - h, pos, h - 1)
    else cols
  }

  /** With the correct index, balance() gives the column its canonical
      height, which fits under the level count, so the list stays at rest;
      a list already in the canonical shape is left as it was. */
  lemma BalanceAtIndex(s: Skiplist, pos: nat)
    requires WellFormed(s) && pos < |s.cols|
    ensures Shaped(s)
    ensures BalanceAt(s, pos, pos).cols[pos].height == BalancedLevel(pos + 1, s.levelCount)
    ensures WellFormed(BalanceAt(s, pos, pos))
  {
    assert Valid(s.(balanced := false));
    RulerBound(pos + 1, s.levelCount);
    var r := BalanceAt(s, pos, pos);
    if s.balanced {
      assert s.cols[pos].height == BalancedLevel(pos + 1, s.levelCount);
      assert r.cols == s.cols;
    }
  }

  lemma CanonicalFromAt(cols: seq<Column>, levels: nat)
    requires forall i :: 0 <= i < |cols| ==> CanonicalAt(cols, levels, i)
    ensures Canonical(cols, levels)
  {
    forall i | 0 <= i < |cols|
      ensures cols[i].height == BalancedLevel(i + 1, levels)
    {
      assert CanonicalAt(cols, levels, i);
    }
  }

  /** Fixing column pos with its correct index keeps every other canonical
      column canonical and makes pos canonical. */
  lemma FixKeeps(s: Skiplist, pos: nat, lo: nat, hi: nat)
    requires WellFormed(s) && pos < |s.cols| && lo <= hi <= |s.cols|
    requires forall i :: lo <= i < hi && i != pos ==> CanonicalAt(s.cols, s.levelCount, i)
    ensures Shaped(s)
    ensures forall i :: lo <= i < hi ==> CanonicalAt(BalanceAt(s, pos, pos).cols, s.levelCount, i)
  {
    BalanceAtIndex(s, pos);
    var r := BalanceAt(s, pos, pos);
    forall i | lo <= i < hi
      ensures CanonicalAt(r.cols, s.levelCount, i)
    {
      if i != pos {
        assert CanonicalAt(s.cols, s.levelCount, i);
        assert r.cols[i] == s.cols[i];
      }
    }
  }

  /** operator++: balance the current column, by the iterator's index,
      unless switched off; step right; and if a balancing iterator that
      started at the beginning has reached the end, switch balancing off and
      flag the container balanced. */
  function Increment(s: Skiplist, c: Cursor): (r: Moved)
    requires Steppable(s, c) && c.pos < |s.cols|
    ensures Steppable(r.list, r.cursor)
    ensures r.cursor.pos == c.pos + 1 && r.cursor.index == c.index + 1 && r.cursor.start == c.start
    ensures r.cursor.dontBalance <==> c.dontBalance || (c.start == Beginning && c.pos + 1 == |s.cols|)
    ensures |r.list.cols| == |s.cols| && Entries(r.list.cols) == Entries(s.cols)
    ensures r.list.levelCount == s.levelCount && r.list.multimap == s.multimap
    ensures c.dontBalance ==> r.list == s
    ensures !c.dontBalance ==>
      r.list.cols == s.cols[c.pos := s.cols[c.pos].(height := Min(Ruler(c.index + 1), s.levelCount))]
    ensures r.list.balanced <==> s.balanced || (!c.dontBalance && c.start == Beginning && c.pos + 1 == |s.cols|)
  {
    var s1 := if c.dontBalance then s else BalanceAt(s, c.pos, c.index);
    var c1 := c.(pos := c.pos + 1, index := c.index + 1);
    if c1.pos == |s.cols| && !c.dontBalance && c.start == Beginning then
      Moved(s1.(balanced := true), c1.(dontBalance := true))
    else
      Moved(s1, c1)
  }

  /** ++ keeps a correct iterator correct. In particular the container is
      flagged balanced only when it really has the canonical shape. */
  lemma IncrementOk(s: Skiplist, c: Cursor)
    requires CursorOk(s, c) && c.pos < |s.cols|
    ensures Steppable(s, c)
    ensures CursorOk(Increment(s, c).list, Increment(s, c).cursor)
  {
    CursorOkSteppable(s, c);
    var r := Increment(s, c);
    if !c.dontBalance {
      var b := BalanceAt(s, c.pos, c.pos);
      BalanceAtIndex(s, c.pos);
      if c.start == Beginning {
        FixKeeps(s, c.pos, 0, c.pos + 1);
        if c.pos + 1 == |s.cols| {
          CanonicalFromAt(b.cols, b.levelCount);
          assert r.list == b.(balanced := true);
        } else {
          assert r.list == b;
        }
      } else {
        FixKeeps(s, c.pos, c.pos + 1, |s.cols|);
        assert r.list == b;
      }
    }
  }

  /** operator--: step left (from the end, to the tail), then balance the
      new current column, by the iterator's index, unless switched off; a
      balancing iterator that started at the end and has reached the first
      element flags the container balanced. Decrementing the first position
      is not allowed. */
  function Decrement(s: Skiplist, c: Cursor): (r: Moved)
    requires Steppable(s, c) && 0 < c.pos
    ensures Steppable(r.list, r.cursor)
    ensures r.cursor.pos == c.pos - 1 && r.cursor.index == c.index - 1 && r.cursor.start == c.start
    ensures r.cursor.dontBalance <==> c.dontBalance || (c.start == End && c.pos == 1)
    ensures |r.list.cols| == |s.cols| && Entries(r.list.cols) == Entries(s.cols)
    ensures r.list.levelCount == s.levelCount && r.list.multimap == s.multimap
    ensures c.dontBalance ==> r.list == s
    ensures !c.dontBalance ==>
      r.list.cols == s.cols[c.pos - 1 := s.cols[c.pos - 1].(height := Min(Ruler(c.index), s.levelCount))]
    ensures r.list.balanced <==> s.balanced || (!c.dontBalance && c.start == End && c.pos == 1)
  {
    var c1 := c.(pos := c.pos - 1, index := c.index - 1);
    if c.dontBalance then Moved(s, c1)
    else
      var s1 := BalanceAt(s, c1.pos, c1.index);
      if c1.pos == 0 && c.start == End then
        Moved(s1.(balanced := true), c1.(dontBalance := true))
      else
        Moved(s1, c1)
  }

  /** -- keeps a correct iterator correct. */
  lemma DecrementOk(s: Skiplist, c: Cursor)
    requires CursorOk(s, c) && 0 < c.pos
    ensures Steppable(s, c)
    ensures CursorOk(Decrement(s, c).list, Decrement(s, c).cursor)
  {
    CursorOkSteppable(s, c);
    var r := Decrement(s, c);
    var p := c.pos - 1;
    if !c.dontBalance {
      var b := BalanceAt(s, p, p);
      BalanceAtIndex(s, p);
      if c.start == End {
        FixKeeps(s, p, p, |s.cols|);
        if p == 0 {
          CanonicalFromAt(b.cols, b.levelCount);
          assert r.list == b.(balanced := true);
        } else {
          assert r.list == b;
        }
      } else {
        FixKeeps(s, p, 0, p);
        assert r.list == b;
      }
    }
  }

  /** Incrementing from the iterator to the end. */
  function ForwardSweep(s: Skiplist, c: Cursor): (r: Moved)
    requires Steppable(s, c)
    ensures Steppable(r.list, r.cursor) && r.cursor.pos == |s.cols| == |r.list.cols|
    decreases |s.cols| - c.pos
  {
    if c.pos == |s.cols| then Moved(s, c)
    else
      var m := Increment(s, c);
      ForwardSweep(m.list, m.cursor)
  }

  /** Decrementing from the iterator to the first element. */
  function BackwardSweep(s: Skiplist, c: Cursor): (r: Moved)
    requires Steppable(s, c)
    ensures Steppable(r.list, r.cursor) && r.cursor.pos == 0 && |r.list.cols| == |s.cols|
    decreases c.pos
  {
    if c.pos == 0 then Moved(s, c)
    else
      var m := Decrement(s, c);
      BackwardSweep(m.list, m.cursor)
  }

  /** s with the columns in [lo, hi) already at their canonical height. */
  function Partly(s: Skiplist, lo: nat, hi: nat): (r: Skiplist)
    requires WellFormed(s) && !s.balanced && lo <= hi <= |s.cols|
    ensures WellFormed(r) && !r.balanced && |r.cols| == |s.cols|
    ensures r.levelCount == s.levelCount && r.multimap == s.multimap
    ensures forall i :: 0 <= i < |s.cols| ==>
      r.cols[i] == if lo <= i < hi then s.cols[i].(height := BalancedLevel(i + 1, s.levelCount)) else s.cols[i]
  {
    var cols := seq(|s.cols|, i requires 0 <= i < |s.cols| =>
      if lo <= i < hi then s.cols[i].(height := BalancedLevel(i + 1, s.levelCount)) else s.cols[i]);
    assert HeightsFit(cols, s.levelCount) by {
      forall i | 0 <= i < |cols|
        ensures 1 <= cols[i].height <= s.levelCount
      {
        RulerBound(i + 1, s.levelCount);
      }
    }
    SameKeysSorted(s.cols, cols, s.multimap);
    s.(cols := cols)
  }

  /** Fixing no column changes nothing. */
  lemma PartlyNone(s: Skiplist, k: nat)
    requires WellFormed(s) && !s.balanced && k <= |s.cols|
    ensures Partly(s, k, k) == s
  {
    assert Partly(s, k, k).cols == s.cols;
  }

  /** The whole list fixed is the balanced form, up to the flag. */
  lemma PartlyAll(s: Skiplist)
    requires WellFormed(s) && !s.balanced && |s.cols| > 0
    ensures Partly(s, 0, |s.cols|).(balanced := true) == BalanceWorker(s)
  {
    var p := Partly(s, 0, |s.cols|);
    var b := BalanceWorker(s);
    assert p.cols == b.cols by {
      forall i | 0 <= i < |s.cols|
        ensures p.cols[i] == b.cols[i]
      {
      }
    }
  }

  /** One increment of a balancing iterator that started at the beginning
      fixes exactly the next column. */
  lemma IncrementPartly(s: Skiplist, k: nat)
    requires WellFormed(s) && !s.balanced && k < |s.cols|
    ensures Steppable(Partly(s, 0, k), Cursor(k, k, false, Beginning))
    ensures Increment(Partly(s, 0, k), Cursor(k, k, false, Beginning)).list.cols == Partly(s, 0, k + 1).cols
  {
    var p := Partly(s, 0, k);
    assert Valid(p.(balanced := false));
    var m := Increment(p, Cursor(k, k, false, Beginning));
    var next := Partly(s, 0, k + 1);
    RulerBound(k + 1, s.levelCount);
    forall i | 0 <= i < |s.cols|
      ensures m.list.cols[i] == next.cols[i]
    {
    }
  }

  lemma {:induction false} ForwardFrom(s: Skiplist, k: nat)
    requires WellFormed(s) && !s.balanced && 0 < |s.cols| && k < |s.cols|
    ensures Steppable(Partly(s, 0, k), Cursor(k, k, false, Beginning))
    ensures ForwardSweep(Partly(s, 0, k), Cursor(k, k, false, Beginning)).list == BalanceWorker(s)
    decreases |s.cols| - k
  {
    IncrementPartly(s, k);
    var m := Increment(Partly(s, 0, k), Cursor(k, k, false, Beginning));
    if k + 1 < |s.cols| {
      assert m == Moved(Partly(s, 0, k + 1), Cursor(k + 1, k + 1, false, Beginning));
      ForwardFrom(s, k + 1);
    } else {
      PartlyAll(s);
    }
  }

  /** A full forward iteration from begin() leaves the container exactly as
      balance() would. */
  lemma ForwardSweepBalances(s: Skiplist)
    requires WellFormed(s) && |s.cols| > 0
    ensures Steppable(s, Begin(s))
    ensures ForwardSweep(s, Begin(s)).list == BalanceWorker(s)
  {
    CursorOkSteppable(s, Begin(s));
    if s.balanced {
      SweepWithoutBalancing(s, Begin(s));
    } else {
      ForwardFrom(s, 0);
      PartlyNone(s, 0);
    }
  }

  lemma {:induction false} SweepWithoutBalancing(s: Skiplist, c: Cursor)
    requires Steppable(s, c) && c.dontBalance
    ensures ForwardSweep(s, c).list == s
    decreases |s.cols| - c.pos
  {
    if c.pos < |s.cols| {
      SweepWithoutBalancing(s, Increment(s, c).cursor);
    }
  }

  /** One decrement of a balancing iterator that started at the end fixes
      exactly the previous column. */
  lemma DecrementPartly(s: Skiplist, k: nat)
    requires WellFormed(s) && !s.balanced && 0 < k <= |s.cols|
    ensures Steppable(Partly(s, k, |s.cols|), Cursor(k, k, false, End))
    ensures Decrement(Partly(s, k, |s.cols|), Cursor(k, k, false, End)).list.cols == Partly(s, k - 1, |s.cols|).cols
  {
    var p := Partly(s, k, |s.cols|);
    assert Valid(p.(balanced := false));
    var m := Decrement(p, Cursor(k, k, false, End));
    var next := Partly(s, k - 1, |s.cols|);
    RulerBound(k, s.levelCount);
    forall i | 0 <= i < |s.cols|
      ensures m.list.cols[i] == next.cols[i]
    {
    }
  }

  lemma {:induction false} BackwardFrom(s: Skiplist, k: nat)
    requires WellFormed(s) && !s.balanced && 0 < k <= |s.cols|
    ensures Steppable(Partly(s, k, |s.cols|), Cursor(k, k, false, End))
    ensures BackwardSweep(Partly(s, k, |s.cols|), Cursor(k, k, false, End)).list == BalanceWorker(s)
    decreases k
  {
    DecrementPartly(s, k);
    var m := Decrement(Partly(s, k, |s.cols|), Cursor(k, k, false, End));
    if 0 < k - 1 {
      assert m == Moved(Partly(s, k - 1, |s.cols|), Cursor(k - 1, k - 1, false, End));
      BackwardFrom(s, k - 1);
    } else {
      PartlyAll(s);
    }
  }

  lemma {:induction false} BackSweepWithoutBalancing(s: Skiplist, c: Cursor)
    requires Steppable(s, c) && c.dontBalance
    ensures BackwardSweep(s, c).list == s
    decreases c.pos
  {
    if 0 < c.pos {
      BackSweepWithoutBalancing(s, Decrement(s, c).cursor);
    }
  }

  /** A full backward iteration from end() leaves the container exactly as
      balance() would. */
  lemma BackwardSweepBalances(s: Skiplist)
    requires WellFormed(s) && |s.cols| > 0
    ensures Steppable(s, EndOf(s))
    ensures BackwardSweep(s, EndOf(s)).list == BalanceWorker(s)
  {
    CursorOkSteppable(s, EndOf(s));
    if s.balanced {
      BackSweepWithoutBalancing(s, EndOf(s));
    } else {
      BackwardFrom(s, |s.cols|);
      PartlyNone(s, |s.cols|);
    }
  }

  // ------------------------------------------------------------------
  // The iterator erase(pos) returns

  /** As written, erasing the last element returns an end iterator whose
      index is one past the new size. A backward sweep from it gives every
      column its successor's canonical height and still flags the container
      balanced: five balanced elements, the last one erased, end up with
      heights 2, 1, 3, 1 instead of 1, 2, 1, 3, and the validator rejects
      the result. */
  lemma StaleEraseIteratorMisbalances()
    ensures
      var s := Skiplist([Column(1, 1, 1), Column(2, 2, 2), Column(3, 3, 1), Column(4, 4, 3), Column(5, 5, 1)], 3, true, false);
      && WellFormed(s)
      && var e := ErasePosAsWritten(s, 4);
      && var m := BackwardSweep(e.0, e.1);
      && m.list.balanced && m.list.cols[0].height == 2 && !Valid(m.list)
  {
    var s := Skiplist([Column(1, 1, 1), Column(2, 2, 2), Column(3, 3, 1), Column(4, 4, 3), Column(5, 5, 1)], 3, true, false);
    assert Ruler(1) == 1 && Ruler(2) == 2 && Ruler(3) == 1 && Ruler(5) == 1;
    assert Ruler(4) == 3;
    assert CountMin(3) == 4 && CountMax(3) == 7;
    forall i | 0 <= i < 5
      ensures s.cols[i].key == i + 1 && s.cols[i].height == BalancedLevel(i + 1, 3)
    {
      if i == 0 {} else if i == 1 {} else if i == 2 {} else if i == 3 {} else {}
    }
    assert WellFormed(s);
    var e := ErasePosAsWritten(s, 4);
    assert e.0.levelCount == 3 && |e.0.cols| == 4 && !e.0.balanced;
    assert e.1 == Cursor(4, 5, false, End);
    var m1 := Decrement(e.0, e.1);
    var m2 := Decrement(m1.list, m1.cursor);
    var m3 := Decrement(m2.list, m2.cursor);
    var m4 := Decrement(m3.list, m3.cursor);
    assert m4.cursor.pos == 0;
    assert BackwardSweep(e.0, e.1) == m4;
    assert m4.list.cols[0].height == 2;
    assert BalancedLevel(1, 3) == 1;
  }

  /** As written, erasing the first element returns an iterator with an
      unknown start, which never balances: a forward sweep from it changes
      nothing and leaves the container unflagged, so it is not what
      balance() gives. */
  lemma ErasedFirstAsWrittenNeverBalances(s: Skiplist)
    requires WellFormed(s) && |s.cols| >= 2
    ensures
      var e := ErasePosAsWritten(s, 0);
      && ForwardSweep(e.0, e.1).list == e.0
      && !ForwardSweep(e.0, e.1).list.balanced
  {
    var e := ErasePosAsWritten(s, 0);
    SweepWithoutBalancing(e.0, e.1);
  }

  /** With the iterator built from the list after the erase, erasing the
      first element and sweeping forward from the returned iterator leaves
      the container exactly as balance() would. */
  lemma EraseFirstThenSweepBalances(s: Skiplist)
    requires WellFormed(s) && |s.cols| >= 2
    ensures
      var e := ErasePos(s, 0);
      && e.1 == Begin(e.0)
      && Steppable(e.0, e.1)
      && ForwardSweep(e.0, e.1).list == BalanceWorker(e.0)
  {
    var e := ErasePos(s, 0);
    ForwardSweepBalances(e.0);
  }

  /** With the iterator built from the list after the erase, erasing the
      last element and sweeping backward from the returned iterator leaves
      the container exactly as balance() would. */
  lemma EraseLastThenSweepBalances(s: Skiplist)
    requires WellFormed(s) && |s.cols| >= 2
    ensures
      var e := ErasePos(s, |s.cols| - 1);
      && e.1 == EndOf(e.0)
      && Steppable(e.0, e.1)
      && BackwardSweep(e.0, e.1).list == BalanceWorker(e.0)
  {
    var e := ErasePos(s, |s.cols| - 1);
    BackwardSweepBalances(e.0);
  }

  // ------------------------------------------------------------------
  // Node count of a balanced list

  /** Ruler(1) + ... + Ruler(m): the column heights of m balanced elements. */
  function SumRuler(m: nat): nat
  {
    if m == 0 then 0 else SumRuler(m - 1) + Ruler(m)
  }

  lemma {:induction false} SumRulerDouble(n: nat)
    ensures SumRuler(2 * n) == 2 * n + SumRuler(n)
    decreases n
  {
    if n > 0 {
      SumRulerDouble(n - 1);
      assert (2 * n - 1) % 2 == 1;
      assert (2 * n) % 2 == 0 && (2 * n) / 2 == n;
      assert Ruler(2 * n) == 1 + Ruler(n);
      assert SumRuler(2 * n) == SumRuler(2 * n - 2) + Ruler(2 * n - 1) + Ruler(2 * n);
    }
  }

  lemma {:induction false} SumRulerPow2(k: nat)
    ensures SumRuler(Pow2(k)) == 2 * Pow2(k) - 1
    decreases k
  {
    if k > 0 {
      SumRulerPow2(k - 1);
      SumRulerDouble(Pow2(k - 1));
    }
  }

  lemma {:induction false} BitLengthPow2(k: nat)
    ensures BitLength(Pow2(k)) == k + 1
    decreases k
  {
    if k > 0 {
      BitLengthPow2(k - 1);
      assert Pow2(k) / 2 == Pow2(k - 1);
    }
  }

  lemma {:induction false} SumHeightsCanonical(cols: seq<Column>, levels: nat)
    requires Canonical(cols, levels)
    ensures SumHeights(cols) == SumRuler(|cols|)
    decreases |cols|
  {
    if |cols| > 0 {
      var init := cols[..|cols| - 1];
      assert Canonical(init, levels) by {
        forall i | 0 <= i < |init|
          ensures init[i].height == BalancedLevel(i + 1, levels)
        {
          assert init[i] == cols[i];
        }
      }
      SumHeightsCanonical(init, levels);
    }
  }

  /** The node count of a balanced list: the sentinel column of
      floor(log2 n) + 1 nodes plus Ruler(k) nodes for the k-th element. */
  lemma BalancedCountNodes(s: Skiplist)
    requires WellFormed(s) && s.balanced
    ensures CountNodes(s) == BitLength(|s.cols|) + SumRuler(|s.cols|)
  {
    CountNodesClosedForm(s);
    SumHeightsCanonical(s.cols, s.levelCount);
    SettledIffBitLength(|s.cols|, s.levelCount);
  }

  /** A balanced list of 2^k elements has 2 * 2^k + k nodes (2^21 + 20 for
      the million-element lists of the unit test). */
  lemma BalancedCountNodesPow2(s: Skiplist, k: nat)
    requires WellFormed(s) && s.balanced && |s.cols| == Pow2(k)
    ensures CountNodes(s) == 2 * |s.cols| + k
  {
    BalancedCountNodes(s);
    SumRulerPow2(k);
    BitLengthPow2(k);
  }

  /** Six balanced elements: 3 sentinels and heights 1, 2, 1, 3, 1, 2. */
  lemma BalancedSixNodes(s: Skiplist)
    requires WellFormed(s) && s.balanced && |s.cols| == 6
    ensures CountNodes(s) == 13
  {
    BalancedCountNodes(s);
    assert BitLength(6) == 3;
    assert Ruler(2) == 2 && Ruler(4) == 3 && Ruler(6) == 2;
    assert SumRuler(6) == 10;
  }
}
