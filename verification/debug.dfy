/** The node-counting walk of SkiplistDebug::CountNodes and the contents
    comparison of operator==. */
module Debug {
  import opened Skiplists

  /** Skipping columns that are absent from level l does not change the
      level's size. */
  lemma {:induction false} LevelSizeSkip(cols: seq<Column>, l: nat, a: nat, b: nat)
    requires a <= b <= |cols|
    requires forall m :: a <= m < b ==> cols[m].height <= l
    ensures LevelSize(cols[..b], l) == LevelSize(cols[..a], l)
    decreases b - a
  {
    if a < b {
      assert cols[..b][..b - 1] == cols[..b - 1];
      LevelSizeSkip(cols, l, a, b - 1);
    }
  }

  /** One level of the walk: the head (sentinel), then every node reached
      through Next. */
  method WalkLevel(s: Skiplist, l: nat) returns (onLevel: nat)
    ensures onLevel == 1 + LevelSize(s.cols, l)
  {
    onLevel := 1;
    var i := -1;
    while NextAt(s.cols, l, i) < |s.cols|
      invariant -1 <= i < |s.cols| && OnLevel(s.cols, l, i)
      invariant onLevel == 1 + LevelSize(s.cols[..i + 1], l)
      decreases |s.cols| - i
    {
      var next := NextAt(s.cols, l, i);
      LevelSizeSkip(s.cols, l, i + 1, next);
      assert s.cols[..next + 1][..next] == s.cols[..next];
      onLevel := onLevel + 1;
      i := next;
    }
    LevelSizeSkip(s.cols, l, i + 1, |s.cols|);
    assert s.cols[..|s.cols|] == s.cols;
  }

  /** CountNodes: walk every level from the top head down, following Next
      from the sentinel and counting every node, the sentinel included. */
  method CountNodesWalk(s: Skiplist) returns (count: nat)
    requires Valid(s)
    ensures count == CountNodes(s)
    ensures count == s.levelCount + SumHeights(s.cols)
  {
    CountNodesClosedForm(s);
    count := 0;
    var l := s.levelCount;
    while l > 0
      invariant 0 <= l <= s.levelCount
      invariant count + NodesBelow(s.cols, l) == NodesBelow(s.cols, s.levelCount)
      decreases l
    {
      l := l - 1;
      var onLevel := WalkLevel(s, l);
      count := count + onLevel;
    }
  }

  /** operator==: equal sizes, then element-by-element comparison of keys
      and values; the level structure is not compared. */
  method Equal(a: Skiplist, b: Skiplist) returns (eq: bool)
    ensures eq <==> Entries(a.cols) == Entries(b.cols)
  {
    if |a.cols| != |b.cols| {
      return false;
    }
    var i := 0;
    while i < |a.cols|
      invariant 0 <= i <= |a.cols|
      invariant forall m :: 0 <= m < i ==> EntryOf(a.cols[m]) == EntryOf(b.cols[m])
    {
      if EntryOf(a.cols[i]) != EntryOf(b.cols[i]) {
        assert Entries(a.cols)[i] != Entries(b.cols)[i];
        return false;
      }
      i := i + 1;
    }
    return true;
  }

  /** operator!=: the negation of operator==. */
  method NotEqual(a: Skiplist, b: Skiplist) returns (ne: bool)
    ensures ne <==> Entries(a.cols) != Entries(b.cols)
  {
    var eq := Equal(a, b);
    ne := !eq;
  }
}
