/** The state of a balancing iterator and the ways the container creates
    one: the indexed constructor behind begin() and end(), and the
    index-less constructor behind the iterators that erase, find and the
    inserts return. */
module Iterators {
  import opened Levels
  import opened Skiplists

  /** Where a balancing iterator was created: the first element, the end,
      or anywhere else (index unknown). */
  datatype Start = Beginning | End | Unknown

  /** A balancing iterator: its position in level 0 (|cols| is the end), the
      index it believes it is at, whether balancing is switched off, and its
      start location. */
  datatype Cursor = Cursor(pos: nat, index: int, dontBalance: bool, start: Start)

  datatype Moved = Moved(list: Skiplist, cursor: Cursor)

  predicate CanonicalAt(cols: seq<Column>, levels: nat, i: nat)
    requires i < |cols|
  {
    cols[i].height == BalancedLevel(i + 1, levels)
  }

  /** What ++ and -- need to run: a list at rest up to its balanced flag, a
      position within it, and, when balancing, an index no smaller than the
      position, so that index + 1 is a valid argument of calcBalancedLevel. */
  predicate Steppable(s: Skiplist, c: Cursor)
  {
    Shaped(s) && c.pos <= |s.cols| && (!c.dontBalance ==> c.index >= c.pos)
  }

  /** The iterator's invariant: a known start means a correct index, an
      unknown start means no balancing, and a balancing iterator has fixed
      every column it has passed: those before it when it started at the
      beginning, those from it on when it started at the end. */
  predicate CursorOk(s: Skiplist, c: Cursor)
  {
    && WellFormed(s) && c.pos <= |s.cols|
    && (c.start == Unknown ==> c.dontBalance)
    && (c.start != Unknown ==> c.index == c.pos)
    && (!c.dontBalance && c.start == Beginning ==>
          forall i :: 0 <= i < c.pos ==> CanonicalAt(s.cols, s.levelCount, i))
    && (!c.dontBalance && c.start == End ==>
          forall i :: c.pos <= i < |s.cols| ==> CanonicalAt(s.cols, s.levelCount, i))
  }

  /** A correct iterator can always be stepped. */
  lemma CursorOkSteppable(s: Skiplist, c: Cursor)
    requires CursorOk(s, c)
    ensures Steppable(s, c)
  {
    assert Valid(s.(balanced := false));
  }

  /** begin(): the indexed constructor at the first element, balancing
      unless the container is already balanced; an empty container gives
      end(). */
  function Begin(s: Skiplist): (c: Cursor)
    requires WellFormed(s)
    ensures CursorOk(s, c)
    ensures |s.cols| > 0 ==> c.pos == 0 && c.start == Beginning && (c.dontBalance <==> s.balanced)
    ensures |s.cols| == 0 ==> c == EndOf(s)
  {
    if |s.cols| == 0 then EndOf(s) else Cursor(0, 0, s.balanced, Beginning)
  }

  /** end(): the indexed constructor with no node and index |cols|. */
  function EndOf(s: Skiplist): (c: Cursor)
    requires WellFormed(s)
    ensures CursorOk(s, c)
    ensures c.pos == |s.cols| && c.start == End && (c.dontBalance <==> s.balanced)
  {
    Cursor(|s.cols|, |s.cols|, s.balanced, End)
  }

  /** The index-less constructor: at the end it takes the container's
      current size as index and balances; at the first element it starts at
      index 0 and balances; anywhere else the index keeps its default 0 and
      the iterator never balances. */
  function CursorAt(s: Skiplist, pos: nat): (c: Cursor)
    requires WellFormed(s) && pos <= |s.cols|
    ensures CursorOk(s, c) && c.pos == pos
    ensures c.dontBalance <==> 0 < pos < |s.cols|
  {
    if pos == |s.cols| then Cursor(pos, pos, false, End)
    else if pos == 0 then Cursor(0, 0, false, Beginning)
    else Cursor(pos, 0, true, Unknown)
  }
}
