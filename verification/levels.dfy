/** Level-count bookkeeping of the skiplist: the size thresholds that decide
    when a level is added or removed, the clamped random level choice, and the
    canonical ("balanced") column height of the i-th element. */
module Levels {

  /** 2^k, the exact integer the source obtains from `pow(2.0, k)`. */
  function Pow2(k: nat): (r: nat)
    ensures r >= 1
  {
    if k == 0 then 1 else 2 * Pow2(k - 1)
  }

  lemma {:induction false} Pow2Monotone(a: nat, b: nat)
    requires a <= b
    ensures Pow2(a) <= Pow2(b)
    decreases b
  {
    if a < b {
      Pow2Monotone(a, b - 1);
    }
  }

  /** Smallest element count a list with `levels` levels may hold at rest. */
  function CountMin(levels: nat): nat
  {
    if levels == 0 then 0 else Pow2(levels - 1)
  }

  /** Largest element count a list with `levels` levels may hold at rest. */
  function CountMax(levels: nat): nat
  {
    Pow2(levels) - 1
  }

  /** The element count lies between the two thresholds of the level count. */
  predicate Settled(count: nat, levels: nat)
  {
    CountMin(levels) <= count <= CountMax(levels)
  }

  /** Growing by one level moves both thresholds to the next power of two:
      the new minimum is one more than the old maximum. */
  lemma AddLevelThresholds(levels: nat)
    ensures CountMin(levels + 1) == CountMax(levels) + 1
    ensures CountMax(levels + 1) == 2 * CountMax(levels) + 1
  {
  }

  /** Number of binary digits of n (0 for n == 0). */
  function BitLength(n: nat): nat
  {
    if n == 0 then 0 else 1 + BitLength(n / 2)
  }

  lemma {:induction false} BitLengthBounds(n: nat)
    requires n >= 1
    ensures Pow2(BitLength(n) - 1) <= n < Pow2(BitLength(n))
    decreases n
  {
    if n >= 2 {
      BitLengthBounds(n / 2);
    }
  }

  /** The thresholds pin the level count down completely: a list at rest with
      n elements has exactly floor(log2 n) + 1 levels, which is also the value
      the copy constructor computes from the element count. */
  lemma {:induction false} SettledIffBitLength(count: nat, levels: nat)
    ensures Settled(count, levels) <==> levels == BitLength(count)
  {
    if count == 0 {
      if levels > 0 {
        assert CountMin(levels) >= 1;
      }
    } else {
      BitLengthBounds(count);
      if Settled(count, levels) {
        SettledPinsLevels(count, levels);
      }
    }
  }

  lemma SettledPinsLevels(count: nat, levels: nat)
    requires count >= 1 && Settled(count, levels)
    ensures levels == BitLength(count)
  {
    BitLengthSettled(count);
    SettledUnique(count, levels, BitLength(count));
  }

  lemma BitLengthSettled(count: nat)
    requires count >= 1
    ensures Settled(count, BitLength(count))
  {
    BitLengthBounds(count);
  }

  /** At most one level count is at rest with a given element count. */
  lemma SettledUnique(count: nat, a: nat, b: nat)
    requires count >= 1 && Settled(count, a) && Settled(count, b)
    ensures a == b
  {
    if a < b {
      Pow2Monotone(a, b - 1);
    } else if a > b {
      Pow2Monotone(b, a - 1);
    }
  }

  /** Ruler(i) = 1 + number of trailing zero bits of i, for i >= 1. */
  function Ruler(i: nat): (r: nat)
    requires i >= 1
    ensures r >= 1
    decreases i
  {
    if i % 2 == 1 then 1 else 1 + Ruler(i / 2)
  }

  /** Canonical height of the element with 1-based index i in a list with
      `levels` levels; index 0 stands for the sentinel column, which spans
      every level. */
  function BalancedLevel(i: nat, levels: nat): nat
  {
    if i == 0 then levels else Ruler(i)
  }

  /** The loop of the source: count how often the index halves before it is
      odd. */
  method CalcBalancedLevel(nodeIndex: nat, levels: nat) returns (level: nat)
    ensures nodeIndex == 0 ==> level == levels
    ensures nodeIndex >= 1 ==> level == Ruler(nodeIndex)
  {
    if nodeIndex == 0 {
      return levels;
    }
    level := 1;
    var n := nodeIndex;
    while n % 2 == 0
      invariant n >= 1
      invariant Ruler(nodeIndex) == level - 1 + Ruler(n)
      decreases n
    {
      level := level + 1;
      n := n / 2;
    }
  }

  lemma {:induction false} MulAtLeast(d: nat, k: nat)
    requires k >= 1
    ensures d * k >= d
    decreases k
  {
    if k > 1 {
      MulAtLeast(d, k - 1);
      assert d * k == d * (k - 1) + d;
    }
  }

  /** Euclidean division is unique: a quotient and remainder that rebuild x
      are the ones `/` and `%` return. */
  lemma DivModUnique(x: nat, d: nat, m: nat, r: nat)
    requires d >= 1 && r < d && x == d * m + r
    ensures x % d == r
  {
    var m' := x / d;
    var r' := x % d;
    assert x == d * m' + r';
    if m' < m {
      MulAtLeast(d, m - m');
    } else if m' > m {
      MulAtLeast(d, m' - m);
    }
  }

  lemma DoubleMod(j: nat, d: nat)
    requires d >= 1
    ensures (2 * j) % (2 * d) == 2 * (j % d)
  {
    var q := j / d;
    var r := j % d;
    assert j == d * q + r;
    assert 2 * j == (2 * d) * q + 2 * r;
    DivModUnique(2 * j, 2 * d, q, 2 * r);
  }

  /** Ruler(i) - 1 is exactly the number of trailing zero bits of i:
      2^(Ruler(i)-1) divides i and 2^Ruler(i) does not. */
  lemma {:induction false} RulerIsTrailingZeros(i: nat)
    requires i >= 1
    ensures i % Pow2(Ruler(i) - 1) == 0
    ensures i % Pow2(Ruler(i)) != 0
    decreases i
  {
    if i % 2 == 0 {
      var j := i / 2;
      RulerIsTrailingZeros(j);
      var a := Pow2(Ruler(j) - 1);
      assert Pow2(Ruler(i) - 1) == 2 * a;
      assert Pow2(Ruler(i)) == 2 * (2 * a);
      DoubleMod(j, a);
      DoubleMod(j, 2 * a);
    }
  }

  lemma {:induction false} RulerPow2Below(i: nat)
    requires i >= 1
    ensures Pow2(Ruler(i) - 1) <= i
    decreases i
  {
    if i % 2 == 0 {
      RulerPow2Below(i / 2);
    }
  }

  /** Every element of a settled list has a canonical height within the level
      count: 1 <= i <= 2^L - 1 implies Ruler(i) <= L. */
  lemma RulerBound(i: nat, levels: nat)
    requires 1 <= i <= CountMax(levels)
    ensures BalancedLevel(i, levels) <= levels
  {
    RulerPow2Below(i);
    if Ruler(i) > levels {
      Pow2Monotone(levels, Ruler(i) - 1);
    }
  }

  /** The level drawn for a new column: `draw` is the value
      floor(log(r) / log(0.5)) the source computes from its random number r,
      so the result is draw + 1 clamped to the level count; the source's
      special case r == 0 (returns the level count) is the case of a draw at
      least as large as the level count. */
  function ChooseLevel(draw: nat, levels: nat): (level: nat)
    ensures level <= levels
    ensures levels >= 1 ==> level >= 1
  {
    if draw + 1 > levels then levels else draw + 1
  }
}
