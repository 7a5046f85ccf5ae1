/** The descent searches: the exact `findRecursive` behind find/at/contains,
    and the comparator-driven `findRecursive` behind lower_bound, upper_bound,
    equal_range and count. A descent starts at the top sentinel, moves right
    while the next node on its level does not stop it, and otherwise drops one
    level. */
module Search {
  import opened Levels
  import opened Skiplists

  /** The two comparators the source hands to the generic descent. */
  datatype Bound =
    | Lower   // (searchKey, nodeKey) -> !(nodeKey < searchKey): first element >= key
    | Upper   // (searchKey, nodeKey) -> searchKey < nodeKey: first element > key

  predicate Stops(b: Bound, x: int, k: int)
  {
    match b
    case Lower => !(k < x)
    case Upper => x < k
  }

  /** Every column has a node on level 0. */
  predicate AllPresent(cols: seq<Column>)
  {
    forall i :: 0 <= i < |cols| ==> cols[i].height >= 1
  }

  /** p is the first position whose key stops the descent (|cols| if none). */
  predicate IsFirstStop(cols: seq<Column>, b: Bound, x: int, p: int)
  {
    && 0 <= p <= |cols|
    && (forall m :: 0 <= m < p ==> !Stops(b, x, cols[m].key))
    && (p < |cols| ==> Stops(b, x, cols[p].key))
  }

  lemma FirstStopUnique(cols: seq<Column>, b: Bound, x: int, p: int, q: int)
    requires IsFirstStop(cols, b, x, p) && IsFirstStop(cols, b, x, q)
    ensures p == q
  {
  }

  /** The generic descent from node (l, i). Its invariant is that no element
      up to i stops it; it returns the level-0 `Next` of the node where it
      finally stops, which is the first stopping position. */
  function Descend(cols: seq<Column>, b: Bound, x: int, l: nat, i: int): (p: int)
    requires NonDecreasing(cols) && AllPresent(cols)
    requires OnLevel(cols, l, i)
    requires forall m :: 0 <= m <= i ==> !Stops(b, x, cols[m].key)
    ensures IsFirstStop(cols, b, x, p)
    decreases l, |cols| - i
  {
    var next := NextAt(cols, l, i);
    if next == |cols| || Stops(b, x, cols[next].key) then
      if l == 0 then next else Descend(cols, b, x, l - 1, i)
    else
      Descend(cols, b, x, l, next)
  }

  /** findRecursive(m_head, key, compare): no head means an empty list, and
      the search returns null (the end position). */
  function BoundSearch(s: Skiplist, b: Bound, x: int): (p: nat)
    requires Valid(s)
    ensures IsFirstStop(s.cols, b, x, p)
  {
    if s.levelCount == 0 then 0 else Descend(s.cols, b, x, s.levelCount - 1, -1)
  }

  /** lower_bound: the first element whose key is not less than x. */
  function LowerBound(s: Skiplist, x: int): (p: nat)
    requires Valid(s)
    ensures p <= |s.cols|
    ensures forall m :: 0 <= m < p ==> s.cols[m].key < x
    ensures p < |s.cols| ==> x <= s.cols[p].key
  {
    BoundSearch(s, Lower, x)
  }

  /** upper_bound: the first element whose key is greater than x. */
  function UpperBound(s: Skiplist, x: int): (p: nat)
    requires Valid(s)
    ensures p <= |s.cols|
    ensures forall m :: 0 <= m < p ==> s.cols[m].key <= x
    ensures p < |s.cols| ==> x < s.cols[p].key
  {
    BoundSearch(s, Upper, x)
  }

  /** equal_range: the pair (lower_bound, upper_bound); between them lie
      exactly the elements whose key is x. */
  function EqualRange(s: Skiplist, x: int): (r: (nat, nat))
    requires Valid(s)
    ensures r.0 <= r.1 <= |s.cols|
    ensures forall m :: 0 <= m < |s.cols| ==> (s.cols[m].key == x <==> r.0 <= m < r.1)
  {
    (LowerBound(s, x), UpperBound(s, x))
  }

  // ------------------------------------------------------------------
  // Exact search

  datatype Found = NotFound | FoundAt(index: nat)

  /** The exact descent from node (l, i): drop a level when the next key is
      greater than x (or there is none), report the next node when its key is
      equivalent, move right when it is smaller. */
  function FindFrom(cols: seq<Column>, x: int, l: nat, i: int): (r: Found)
    requires NonDecreasing(cols) && AllPresent(cols)
    requires OnLevel(cols, l, i)
    requires forall m :: 0 <= m <= i ==> cols[m].key < x
    ensures r.FoundAt? ==> r.index < |cols| && cols[r.index].key == x
    ensures r.NotFound? ==> forall m :: 0 <= m < |cols| ==> cols[m].key != x
    decreases l, |cols| - i
  {
    var next := NextAt(cols, l, i);
    if next == |cols| || x < cols[next].key then
      if l == 0 then NotFound else FindFrom(cols, x, l - 1, i)
    else if !(cols[next].key < x) then
      FoundAt(next)
    else
      FindFrom(cols, x, l, next)
  }

  /** find: some element whose key is x, or NotFound (the end position)
      exactly when no element has that key. */
  function Find(s: Skiplist, x: int): (r: Found)
    requires Valid(s)
    ensures r.FoundAt? ==> r.index < |s.cols| && s.cols[r.index].key == x
    ensures r.NotFound? <==> forall m :: 0 <= m < |s.cols| ==> s.cols[m].key != x
  {
    if s.levelCount == 0 then NotFound else FindFrom(s.cols, x, s.levelCount - 1, -1)
  }

  /** contains: whether some element has key x. */
  function Contains(s: Skiplist, x: int): (b: bool)
    requires Valid(s)
    ensures b <==> exists m :: 0 <= m < |s.cols| && s.cols[m].key == x
  {
    Find(s, x).FoundAt?
  }

  datatype Lookup = Value(val: int) | OutOfRange

  /** at: the value of an element with key x, or the out_of_range error the
      source throws when there is none. */
  function At(s: Skiplist, x: int): (r: Lookup)
    requires Valid(s)
    ensures r.Value? ==> exists m :: 0 <= m < |s.cols| && s.cols[m].key == x && s.cols[m].val == r.val
    ensures r.OutOfRange? <==> forall m :: 0 <= m < |s.cols| ==> s.cols[m].key != x
  {
    match Find(s, x)
    case NotFound => OutOfRange
    case FoundAt(i) => Value(s.cols[i].val)
  }

  // ------------------------------------------------------------------
  // count

  /** Number of elements whose key is x. */
  function KeyCount(cols: seq<Column>, x: int): nat
  {
    if |cols| == 0 then 0 else (if cols[0].key == x then 1 else 0) + KeyCount(cols[1..], x)
  }

  lemma {:induction false} KeyCountConcat(a: seq<Column>, b: seq<Column>, x: int)
    ensures KeyCount(a + b, x) == KeyCount(a, x) + KeyCount(b, x)
    decreases |a|
  {
    if |a| > 0 {
      assert (a + b)[1..] == a[1..] + b;
      KeyCountConcat(a[1..], b, x);
    } else {
      assert a + b == b;
    }
  }

  lemma {:induction false} KeyCountNone(cols: seq<Column>, x: int)
    requires forall m :: 0 <= m < |cols| ==> cols[m].key != x
    ensures KeyCount(cols, x) == 0
    decreases |cols|
  {
    if |cols| > 0 {
      KeyCountNone(cols[1..], x);
    }
  }

  lemma {:induction false} KeyCountAll(cols: seq<Column>, x: int)
    requires forall m :: 0 <= m < |cols| ==> cols[m].key == x
    ensures KeyCount(cols, x) == |cols|
    decreases |cols|
  {
    if |cols| > 0 {
      KeyCountAll(cols[1..], x);
    }
  }

  /** A run [lo, hi) of elements with key x, with no x outside it, holds
      every x of the sequence. */
  lemma KeyCountRun(cols: seq<Column>, x: int, lo: nat, hi: nat)
    requires lo <= hi <= |cols|
    requires forall m :: 0 <= m < |cols| ==> (cols[m].key == x <==> lo <= m < hi)
    ensures KeyCount(cols, x) == hi - lo
  {
    assert cols == cols[..lo] + cols[lo..hi] + cols[hi..];
    KeyCountConcat(cols[..lo] + cols[lo..hi], cols[hi..], x);
    KeyCountConcat(cols[..lo], cols[lo..hi], x);
    KeyCountNone(cols[..lo], x);
    KeyCountAll(cols[lo..hi], x);
    KeyCountNone(cols[hi..], x);
  }

  /** The distance between the bounds is the number of equivalent elements. */
  lemma EqualRangeCount(s: Skiplist, x: int)
    requires Valid(s)
    ensures UpperBound(s, x) - LowerBound(s, x) == KeyCount(s.cols, x)
  {
    var r := EqualRange(s, x);
    KeyCountRun(s.cols, x, r.0, r.1);
  }

  /** count: walk right from the lower bound while the key is still x. */
  method Count(s: Skiplist, x: int) returns (n: nat)
    requires Valid(s)
    ensures n == KeyCount(s.cols, x)
  {
    var lb := LowerBound(s, x);
    var current := lb;
    n := 0;
    while current < |s.cols| && !(x < s.cols[current].key)
      invariant lb <= current <= |s.cols|
      invariant n == current - lb
      invariant forall m :: lb <= m < current ==> s.cols[m].key == x
      decreases |s.cols| - current
    {
      n := n + 1;
      current := current + 1;
    }
    assert forall m :: current <= m < |s.cols| ==> x < s.cols[m].key by {
      if current < |s.cols| {
        assert x < s.cols[current].key;
      }
    }
    KeyCountRun(s.cols, x, lb, current);
  }
}
