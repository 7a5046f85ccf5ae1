/** Erasure: by key (`erase(key)` with `eraseKeyRecursive`), by position
    (`erase(pos)` with `eraseAbove`), by range, and the level removal loop
    that follows them. */
module Erase {
  import opened Levels
  import opened Skiplists
  import opened Search
  import opened Insertion
  import opened Iterators

  /** Level 0 with the column at p removed. */
  function Remove(cols: seq<Column>, p: nat): (r: seq<Column>)
    requires p < |cols|
    ensures |r| == |cols| - 1
    ensures forall m :: 0 <= m < p ==> r[m] == cols[m]
    ensures forall m :: p <= m < |r| ==> r[m] == cols[m + 1]
  {
    cols[..p] + cols[p + 1..]
  }

  /** Reference definition: level 0 without the elements whose key is x. */
  function Without(cols: seq<Column>, x: int): seq<Column>
  {
    if |cols| == 0 then []
    else (if cols[0].key == x then [] else [cols[0]]) + Without(cols[1..], x)
  }

  lemma {:induction false} WithoutConcat(a: seq<Column>, b: seq<Column>, x: int)
    ensures Without(a + b, x) == Without(a, x) + Without(b, x)
    decreases |a|
  {
    if |a| > 0 {
      assert (a + b)[1..] == a[1..] + b;
      WithoutConcat(a[1..], b, x);
    } else {
      assert a + b == b;
    }
  }

  lemma {:induction false} WithoutNone(cols: seq<Column>, x: int)
    requires forall m :: 0 <= m < |cols| ==> cols[m].key != x
    ensures Without(cols, x) == cols
    decreases |cols|
  {
    if |cols| > 0 {
      WithoutNone(cols[1..], x);
    }
  }

  lemma {:induction false} WithoutAll(cols: seq<Column>, x: int)
    requires forall m :: 0 <= m < |cols| ==> cols[m].key == x
    ensures Without(cols, x) == []
    decreases |cols|
  {
    if |cols| > 0 {
      WithoutAll(cols[1..], x);
    }
  }

  /** Cutting out the run of x's is the same as filtering them out. */
  lemma WithoutRun(cols: seq<Column>, x: int, lo: nat, hi: nat)
    requires lo <= hi <= |cols|
    requires forall m :: 0 <= m < |cols| ==> (cols[m].key == x <==> lo <= m < hi)
    ensures Without(cols, x) == cols[..lo] + cols[hi..]
  {
    assert cols == cols[..lo] + cols[lo..hi] + cols[hi..];
    WithoutConcat(cols[..lo] + cols[lo..hi], cols[hi..], x);
    WithoutConcat(cols[..lo], cols[lo..hi], x);
    WithoutNone(cols[..lo], x);
    WithoutAll(cols[lo..hi], x);
    WithoutNone(cols[hi..], x);
  }

  lemma RemoveSorted(cols: seq<Column>, p: nat, multimap: bool)
    requires p < |cols| && SortedFor(cols, multimap)
    ensures SortedFor(Remove(cols, p), multimap)
  {
    var r := Remove(cols, p);
    forall i, j | 0 <= i < j < |r|
      ensures r[i].key <= r[j].key && (!multimap ==> r[i].key < r[j].key)
    {
      var i' := if i < p then i else i + 1;
      var j' := if j < p then j else j + 1;
      assert r[i] == cols[i'] && r[j] == cols[j'] && i' < j';
    }
  }

  /** Cutting a run out of level 0 keeps it sorted. */
  lemma CutSorted(cols: seq<Column>, lo: nat, hi: nat, multimap: bool)
    requires lo <= hi <= |cols| && SortedFor(cols, multimap)
    ensures SortedFor(cols[..lo] + cols[hi..], multimap)
  {
    var r := cols[..lo] + cols[hi..];
    forall i, j | 0 <= i < j < |r|
      ensures r[i].key <= r[j].key && (!multimap ==> r[i].key < r[j].key)
    {
      var i' := if i < lo then i else i + hi - lo;
      var j' := if j < lo then j else j + hi - lo;
      assert r[i] == cols[i'] && r[j] == cols[j'] && i' < j';
    }
  }

  /** The `while (m_count < m_countMin) removeLevel()` loop run after
      elements are gone: it settles the level count at floor(log2 n) + 1 and
      only clips column heights. */
  function ShrinkLevels(s: Skiplist): (r: Skiplist)
    requires SortedFor(s.cols, s.multimap) && HeightsFit(s.cols, s.levelCount)
    requires |s.cols| <= CountMax(s.levelCount) && !s.balanced
    ensures WellFormed(r) && !r.balanced && r.multimap == s.multimap
    ensures r.levelCount <= s.levelCount && r.levelCount == BitLength(|s.cols|)
    ensures |r.cols| == |s.cols| && Entries(r.cols) == Entries(s.cols)
    ensures forall i :: 0 <= i < |s.cols| ==>
      r.cols[i] == s.cols[i].(height := Min(s.cols[i].height, r.levelCount))
    decreases s.levelCount
  {
    if |s.cols| < CountMin(s.levelCount) then
      var s1 := RemoveLevel(s);
      assert HeightsFit(s1.cols, s1.levelCount) by {
        if |s.cols| > 0 {
          assert s.levelCount >= 2;
        }
      }
      ShrinkLevels(s1)
    else
      SettledIffBitLength(|s.cols|, s.levelCount);
      assert forall i :: 0 <= i < |s.cols| ==> s.cols[i] == s.cols[i].(height := Min(s.cols[i].height, s.levelCount));
      s
  }

  // ------------------------------------------------------------------
  // erase(key)

  /** Level 0 of eraseKeyRecursive: from the element found, extend over the
      equivalent keys to the left and to the right. The run it finds holds
      every element with key x. */
  method EqualRun(s: Skiplist, x: int, i: nat) returns (lo: nat, hi: nat)
    requires WellFormed(s) && i < |s.cols| && s.cols[i].key == x
    ensures lo <= i < hi <= |s.cols|
    ensures forall m :: 0 <= m < |s.cols| ==> (s.cols[m].key == x <==> lo <= m < hi)
  {
    lo := i;
    while lo > 0 && !(s.cols[lo - 1].key < x)
      invariant 0 <= lo <= i
      invariant forall m :: lo <= m <= i ==> s.cols[m].key == x
      decreases lo
    {
      lo := lo - 1;
    }
    hi := i + 1;
    while hi < |s.cols| && !(x < s.cols[hi].key)
      invariant i < hi <= |s.cols|
      invariant forall m :: lo <= m < hi ==> s.cols[m].key == x
      decreases |s.cols| - hi
    {
      hi := hi + 1;
    }
    forall m | 0 <= m < |s.cols| && !(lo <= m < hi)
      ensures s.cols[m].key != x
    {
      if m < lo {
        assert s.cols[m].key <= s.cols[lo - 1].key;
      } else {
        assert s.cols[hi].key <= s.cols[m].key;
      }
    }
  }

  /** erase(key): find some element with key x; if there is none nothing
      changes (the balanced flag included) and 0 is returned. Otherwise the
      worker removes the equivalent elements to its left and right on every
      level, the count drops by the number removed from level 0, and levels
      are removed while the count is below the minimum. */
  method EraseKey(s: Skiplist, x: int) returns (r: Skiplist, removed: nat)
    requires WellFormed(s)
    ensures WellFormed(r) && r.multimap == s.multimap
    ensures removed == KeyCount(s.cols, x)
    ensures removed == 0 ==> r == s
    ensures removed > 0 ==> !r.balanced
    ensures |r.cols| == |s.cols| - removed
    ensures Entries(r.cols) == Entries(Without(s.cols, x))
  {
    var found := Find(s, x);
    if found.NotFound? {
      KeyCountNone(s.cols, x);
      WithoutNone(s.cols, x);
      return s, 0;
    }
    var lo, hi := EqualRun(s, x, found.index);
    removed := hi - lo;
    KeyCountRun(s.cols, x, lo, hi);
    WithoutRun(s.cols, x, lo, hi);
    CutSorted(s.cols, lo, hi, s.multimap);
    var rest := s.cols[..lo] + s.cols[hi..];
    r := ShrinkLevels(Skiplist(rest, s.levelCount, false, s.multimap));
  }

  // ------------------------------------------------------------------
  // erase(pos), eraseAbove and the range erase

  /** eraseAbove: remove the nodes of column j above level l, the top one
      first (the recursive call comes before the unlink). */
  function EraseAbove(cols: seq<Column>, j: nat, l: nat): (r: seq<Column>)
    requires j < |cols| && l < cols[j].height
    ensures |r| == |cols| && r[j] == cols[j].(height := l + 1)
    ensures forall m :: 0 <= m < |cols| && m != j ==> r[m] == cols[m]
    decreases cols[j].height
  {
    if cols[j].height == l + 1 then cols
    else EraseAbove(cols[j := cols[j].(height := cols[j].height - 1)], j, l)
  }

  /** The unlink of eraseAbove: on every level the column leaves, its former
      Prev now links straight to its former Next. */
  lemma EraseAboveLinks(cols: seq<Column>, j: nat, l: nat, t: nat)
    requires j < |cols| && l < t < cols[j].height
    ensures NextAt(EraseAbove(cols, j, l), t, PrevAt(cols, t, j)) == NextAt(cols, t, j)
  {
    var r := EraseAbove(cols, j, l);
    var a := PrevAt(cols, t, j);
    var b := NextAt(cols, t, j);
    assert forall m :: a < m < b ==> r[m].height <= t;
    if b < |cols| {
      NextUnique(r, t, a, b);
    }
  }

  /** erase(pos): pos == |cols| stands for the end iterator, which the source
      rejects (an assertion, then end() with nothing changed). Otherwise the
      element goes, one level is removed if the count fell below the minimum,
      and the result is an iterator at the successor, which now has the
      erased element's index. The iterator is built here from the list after
      the erase; see ErasePosAsWritten for the one the source builds. */
  function ErasePos(s: Skiplist, pos: nat): (r: (Skiplist, Cursor))
    requires WellFormed(s) && pos <= |s.cols|
    ensures WellFormed(r.0) && r.0.multimap == s.multimap
    ensures pos == |s.cols| ==> r == (s, EndOf(s))
    ensures pos < |s.cols| ==> !r.0.balanced && |r.0.cols| == |s.cols| - 1
    ensures pos < |s.cols| ==> r.1 == CursorAt(r.0, pos) && CursorOk(r.0, r.1)
    ensures pos < |s.cols| ==> Entries(r.0.cols) == Entries(s.cols[..pos]) + Entries(s.cols[pos + 1..])
    ensures pos < |s.cols| ==> forall m :: 0 <= m < |r.0.cols| ==>
      r.0.cols[m].height == Min((Remove(s.cols, pos))[m].height, r.0.levelCount)
  {
    if pos == |s.cols| then (s, EndOf(s))
    else
      RemoveSorted(s.cols, pos, s.multimap);
      var s1 := Skiplist(Remove(s.cols, pos), s.levelCount, false, s.multimap);
      assert Entries(s1.cols) == Entries(s.cols[..pos]) + Entries(s.cols[pos + 1..]) by {
        EntriesConcat(s.cols[..pos], s.cols[pos + 1..]);
      }
      var s2 := if |s1.cols| < CountMin(s1.levelCount) then RemoveLevel(s1) else s1;
      ErasedSettles(s, s1, s2);
      (s2, CursorAt(s2, pos))
  }

  /** erase(pos) as the source writes it: the returned iterator is built
      from the successor node while the erased element is still linked and
      before the count is decremented. When the erased element was the last
      one, the successor is null and the iterator takes the old size as its
      index, one more than its position. Otherwise the successor's Prev is
      the erased element, never the sentinel, so the iterator has an unknown
      start and never balances, even when it stands at the new first
      element. */
  function ErasePosAsWritten(s: Skiplist, pos: nat): (r: (Skiplist, Cursor))
    requires WellFormed(s) && pos <= |s.cols|
    ensures r.0 == ErasePos(s, pos).0 && Steppable(r.0, r.1) && r.1.pos == pos
    ensures pos == |s.cols| || 0 < pos < |s.cols| - 1 ==> r.1 == ErasePos(s, pos).1
    ensures pos + 1 == |s.cols| ==> r.1.start == End && !r.1.dontBalance && r.1.index == |r.0.cols| + 1
    ensures pos + 1 < |s.cols| ==> r.1.start == Unknown && r.1.dontBalance && r.1.index == 0
  {
    var e := ErasePos(s, pos);
    CursorOkSteppable(e.0, e.1);
    if pos == |s.cols| then e
    else if pos + 1 == |s.cols| then (e.0, Cursor(pos, |s.cols|, false, End))
    else (e.0, Cursor(pos, 0, true, Unknown))
  }

  lemma ErasedSettles(s: Skiplist, s1: Skiplist, s2: Skiplist)
    requires WellFormed(s) && |s.cols| >= 1
    requires |s1.cols| == |s.cols| - 1 && s1.levelCount == s.levelCount && !s1.balanced
    requires SortedFor(s1.cols, s1.multimap) && HeightsFit(s1.cols, s1.levelCount)
    requires s2 == if |s1.cols| < CountMin(s1.levelCount) then RemoveLevel(s1) else s1
    ensures WellFormed(s2)
    ensures forall m :: 0 <= m < |s1.cols| ==> s2.cols[m].height == Min(s1.cols[m].height, s2.levelCount)
  {
    if |s1.cols| < CountMin(s1.levelCount) {
      assert |s.cols| == CountMin(s.levelCount);
      if s.levelCount >= 2 {
        assert CountMin(s.levelCount) == 2 * CountMin(s.levelCount - 1);
      }
    }
  }

  lemma EraseRangeStep(a: seq<Column>, b: seq<Column>, c: seq<Column>, first: nat, last: nat)
    requires first < last <= |a| && |b| == |a| - 1
    requires Entries(b) == Entries(a[..first]) + Entries(a[first + 1..])
    requires Entries(c) == Entries(b[..first]) + Entries(b[last - 1..])
    ensures Entries(c) == Entries(a[..first]) + Entries(a[last..])
  {
    var e := Entries(b);
    assert Entries(b[..first]) == e[..first] == Entries(a[..first]);
    assert Entries(b[last - 1..]) == e[last - 1..] == Entries(a[last..]);
  }

  /** erase(first, last): erase the element at `first` until it reaches
      `last`, whose index drops by one with every erase; the result is an
      iterator at `last`, built with the index-less constructor once every
      element is gone. */
  function EraseRange(s: Skiplist, first: nat, last: nat): (r: (Skiplist, Cursor))
    requires WellFormed(s) && first <= last <= |s.cols|
    ensures WellFormed(r.0) && r.0.multimap == s.multimap
    ensures first <= |r.0.cols| && r.1 == CursorAt(r.0, first)
    ensures |r.0.cols| == |s.cols| - (last - first)
    ensures Entries(r.0.cols) == Entries(s.cols[..first]) + Entries(s.cols[last..])
    ensures first == last ==> r.0 == s
    decreases last - first
  {
    if first == last then
      EntriesConcat(s.cols[..first], s.cols[first..]);
      assert s.cols[..first] + s.cols[first..] == s.cols;
      (s, CursorAt(s, first))
    else
      var s1 := ErasePos(s, first).0;
      var r := EraseRange(s1, first, last - 1);
      EraseRangeStep(s.cols, s1.cols, r.0.cols, first, last);
      r
  }

  // ------------------------------------------------------------------
  // Round trips with insert

  /** Cutting the added element back out of the contents gives back the
      contents before. */
  lemma CutAdded(before: seq<Column>, cols: seq<Column>, p: nat, e: Entry)
    requires p <= |before| && |cols| == |before| + 1
    requires Entries(cols) == Entries(before[..p]) + [e] + Entries(before[p..])
    ensures Entries(cols[..p]) + Entries(cols[p + 1..]) == Entries(before)
  {
    var es := Entries(cols);
    assert Entries(cols[..p]) == es[..p] == Entries(before[..p]);
    assert Entries(cols[p + 1..]) == es[p + 1..] == Entries(before[p..]);
    EntriesConcat(before[..p], before[p..]);
    assert before[..p] + before[p..] == before;
  }

  /** Erasing the element an insert has just placed gives back the
      original contents. */
  lemma ErasePosUndoesInsert(s: Skiplist, e: Entry, draw: nat)
    requires WellFormed(s)
    ensures
      var r := Insert(s, e, draw);
      r.success ==> r.pos < |r.list.cols| && Entries(ErasePos(r.list, r.pos).0.cols) == Entries(s.cols)
  {
    var r := Insert(s, e, draw);
    if r.success {
      CutAdded(s.cols, r.list.cols, r.pos, e);
    }
  }

  /** Level 0 with one element of key x added to a sequence free of x:
      filtering x out again gives back the contents. */
  lemma AddedThenFiltered(before: seq<Column>, cols: seq<Column>, p: nat, e: Entry)
    requires p <= |before| && |cols| == |before| + 1
    requires Entries(cols) == Entries(before[..p]) + [e] + Entries(before[p..])
    requires forall m :: 0 <= m < |before| ==> before[m].key != e.key
    ensures KeyCount(cols, e.key) == 1
    ensures Entries(Without(cols, e.key)) == Entries(before)
  {
    var es := Entries(cols);
    forall m | 0 <= m < |cols|
      ensures cols[m].key == e.key <==> p <= m < p + 1
    {
      assert es[m] == EntryOf(cols[m]);
      if m < p {
        assert es[m] == Entries(before[..p])[m];
      } else if m > p {
        assert es[m] == Entries(before[p..])[m - p - 1];
      }
    }
    KeyCountRun(cols, e.key, p, p + 1);
    WithoutRun(cols, e.key, p, p + 1);
    EntriesConcat(cols[..p], cols[p + 1..]);
    CutAdded(before, cols, p, e);
  }

  /** In a unique-key list, erasing the key just inserted gives back the
      original contents, and exactly one element goes. */
  lemma EraseKeyUndoesInsert(s: Skiplist, e: Entry, draw: nat)
    requires WellFormed(s) && !s.multimap
    requires forall m :: 0 <= m < |s.cols| ==> s.cols[m].key != e.key
    ensures
      var r := Insert(s, e, draw);
      && KeyCount(r.list.cols, e.key) == 1
      && Entries(Without(r.list.cols, e.key)) == Entries(s.cols)
  {
    var r := Insert(s, e, draw);
    AddedThenFiltered(s.cols, r.list.cols, r.pos, e);
  }
}
