/** The measures of a position tree that the page sizing reads: its depth,
    its leaf count, how many nodes sit on each level, and the page size
    derived from the widest level and the depth. */
module TreeShape {
  import opened Wrappers
  import opened Positions
  import Style
  import NormTotals

  // ---------------------------------------------------------------------
  // calculateSubtreeWidth

  /** Number of leaves below and including `t`. */
  function Leaves(t: Position): (r: nat)
    ensures r >= 1
    decreases t, 1
  {
    if IsLeaf(t) then 1 else LeavesRow(t, 0)
  }

  /** Leaves of the children `i..` of `t`. */
  function LeavesRow(t: Position, i: nat): (r: nat)
    requires i <= |Kids(t)|
    ensures r >= |Kids(t)| - i
    decreases t, 0, |Kids(t)| - i
  {
    if i == |Kids(t)| then 0
    else
      KidSmaller(t, i);
      Leaves(Kids(t)[i]) + LeavesRow(t, i + 1)
  }

  /** How many of the listed positions have no children. */
  function LeafCount(ps: seq<Position>): nat {
    if |ps| == 0 then 0 else (if IsLeaf(ps[0]) then 1 else 0) + LeafCount(ps[1..])
  }

  lemma {:induction false} LeafCountConcat(a: seq<Position>, b: seq<Position>)
    ensures LeafCount(a + b) == LeafCount(a) + LeafCount(b)
  {
    if |a| > 0 {
      assert (a + b)[1..] == a[1..] + b;
      LeafCountConcat(a[1..], b);
    } else {
      assert a + b == b;
    }
  }

  /** The recursive count is the number of nodes of the tree without
      children. */
  lemma {:induction false} LeavesAreLeafNodes(t: Position)
    ensures Leaves(t) == LeafCount(NormTotals.Preorder(t))
    decreases t, 1
  {
    LeavesRowAreLeafNodes(t, 0);
    LeafCountConcat([t], NormTotals.PreorderRow(t, 0));
  }

  lemma {:induction false} LeavesRowAreLeafNodes(t: Position, i: nat)
    requires i <= |Kids(t)|
    ensures LeavesRow(t, i) == LeafCount(NormTotals.PreorderRow(t, i))
    decreases t, 0, |Kids(t)| - i
  {
    if i < |Kids(t)| {
      KidSmaller(t, i);
      LeavesAreLeafNodes(Kids(t)[i]);
      LeavesRowAreLeafNodes(t, i + 1);
      LeafCountConcat(NormTotals.Preorder(Kids(t)[i]), NormTotals.PreorderRow(t, i + 1));
    }
  }

  /** `calculateSubtreeWidth(node)`: 0 for `null`, 1 for a leaf, otherwise
      the sum over the children. */
  function SubtreeWidth(node: Option<Position>): (r: nat)
    ensures node.None? <==> r == 0
  {
    if node.None? then 0 else Leaves(node.value)
  }

  // ---------------------------------------------------------------------
  // calculateDepth

  /** `calculateDepth(node)` on a non-null node: 1 for a leaf, otherwise one
      more than the deepest child. */
  function Depth(t: Position): (r: nat)
    ensures r >= 1
    decreases t, 1
  {
    if IsLeaf(t) then 1 else 1 + DeepestKid(t, 0)
  }

  /** The largest depth among the children `i..`, 0 when there are none. */
  function DeepestKid(t: Position, i: nat): (r: nat)
    requires i <= |Kids(t)|
    ensures i < |Kids(t)| ==> r >= 1
    decreases t, 0, |Kids(t)| - i
  {
    if i == |Kids(t)| then 0
    else
      KidSmaller(t, i);
      var d := Depth(Kids(t)[i]);
      var rest := DeepestKid(t, i + 1);
      if d > rest then d else rest
  }

  // ---------------------------------------------------------------------
  // Reference: how many nodes sit on each level

  /** Number of nodes of `t` at distance `level` below it. */
  function LevelCount(t: Position, level: nat): nat
    decreases t, 1
  {
    if level == 0 then 1 else LevelCountRow(t, 0, level - 1)
  }

  function LevelCountRow(t: Position, i: nat, level: nat): nat
    requires i <= |Kids(t)|
    decreases t, 0, |Kids(t)| - i
  {
    if i == |Kids(t)| then 0
    else
      KidSmaller(t, i);
      LevelCount(Kids(t)[i], level) + LevelCountRow(t, i + 1, level)
  }

  /** A level is occupied exactly when it lies above the depth. */
  lemma {:induction false} LevelOccupied(t: Position, level: nat)
    ensures LevelCount(t, level) >= 1 <==> level < Depth(t)
    decreases t, 1
  {
    if level > 0 {
      if IsLeaf(t) {
        assert LevelCountRow(t, 0, level - 1) == 0;
      } else {
        LevelOccupiedRow(t, 0, level - 1);
      }
    }
  }

  lemma {:induction false} LevelOccupiedRow(t: Position, i: nat, level: nat)
    requires i <= |Kids(t)|
    ensures LevelCountRow(t, i, level) >= 1 <==> level < DeepestKid(t, i)
    decreases t, 0, |Kids(t)| - i
  {
    if i < |Kids(t)| {
      KidSmaller(t, i);
      LevelOccupied(Kids(t)[i], level);
      LevelOccupiedRow(t, i + 1, level);
    }
  }

  /** No level holds more nodes than the tree has leaves: every node of a
      level has at least one leaf of its own below it. */
  lemma {:induction false} LevelWithinLeaves(t: Position, level: nat)
    ensures LevelCount(t, level) <= Leaves(t)
    decreases t, 1
  {
    if level > 0 && !IsLeaf(t) {
      LevelWithinLeavesRow(t, 0, level - 1);
    } else if level > 0 {
      assert LevelCountRow(t, 0, level - 1) == 0;
    }
  }

  lemma {:induction false} LevelWithinLeavesRow(t: Position, i: nat, level: nat)
    requires i <= |Kids(t)|
    ensures LevelCountRow(t, i, level) <= LeavesRow(t, i)
    decreases t, 0, |Kids(t)| - i
  {
    if i < |Kids(t)| {
      KidSmaller(t, i);
      LevelWithinLeaves(Kids(t)[i], level);
      LevelWithinLeavesRow(t, i + 1, level);
    }
  }

  // ---------------------------------------------------------------------
  // calculateMaxWidth: the per-level tally in a map

  function Tally(table: map<int, int>, level: int): int {
    if level in table then table[level] else 0
  }

  /** `calculateMaxWidth(node, level, widthByLevel)`: counts the node on its
      level, then visits the children left to right one level lower. */
  function CountLevels(t: Position, level: int, table: map<int, int>): map<int, int>
    decreases t, 1
  {
    var counted := table[level := Tally(table, level) + 1];
    if IsLeaf(t) then counted else CountLevelsRow(t, 0, level + 1, counted)
  }

  function CountLevelsRow(t: Position, i: nat, level: int, table: map<int, int>): map<int, int>
    requires i <= |Kids(t)|
    decreases t, 0, |Kids(t)| - i
  {
    if i == |Kids(t)| then table
    else
      KidSmaller(t, i);
      CountLevelsRow(t, i + 1, level, CountLevels(Kids(t)[i], level, table))
  }

  /** The tally adds, on every level at or below `level`, the number of
      nodes of `t` there, and touches nothing above; the levels it creates
      are exactly those the tree reaches. */
  lemma {:induction false} CountLevelsAdds(t: Position, level: int, table: map<int, int>)
    ensures var r := CountLevels(t, level, table);
            forall l :: Tally(r, l) == Tally(table, l) + (if l >= level then LevelCount(t, l - level) else 0)
    ensures var r := CountLevels(t, level, table);
            forall l :: l in r <==> l in table || level <= l < level + Depth(t)
    decreases t, 1
  {
    var counted := table[level := Tally(table, level) + 1];
    var r := CountLevels(t, level, table);
    if IsLeaf(t) {
      forall l ensures Tally(r, l) == Tally(table, l) + (if l >= level then LevelCount(t, l - level) else 0) {
        if l > level {
          assert LevelCountRow(t, 0, l - level - 1) == 0;
        }
      }
    } else {
      CountLevelsRowAdds(t, 0, level + 1, counted);
      assert r == CountLevelsRow(t, 0, level + 1, counted);
      assert Depth(t) == 1 + DeepestKid(t, 0);
      forall l ensures Tally(r, l) == Tally(table, l) + (if l >= level then LevelCount(t, l - level) else 0) {
        assert Tally(r, l) == Tally(counted, l) + (if l >= level + 1 then LevelCountRow(t, 0, l - level - 1) else 0);
        if l > level {
          assert LevelCount(t, l - level) == LevelCountRow(t, 0, l - level - 1);
        } else if l == level {
          assert LevelCount(t, 0) == 1;
        }
      }
    }
  }

  lemma {:induction false} CountLevelsRowAdds(t: Position, i: nat, level: int, table: map<int, int>)
    requires i <= |Kids(t)|
    ensures var r := CountLevelsRow(t, i, level, table);
            forall l :: Tally(r, l) == Tally(table, l) + (if l >= level then LevelCountRow(t, i, l - level) else 0)
    ensures var r := CountLevelsRow(t, i, level, table);
            forall l :: l in r <==> l in table || level <= l < level + DeepestKid(t, i)
    decreases t, 0, |Kids(t)| - i
  {
    if i < |Kids(t)| {
      KidSmaller(t, i);
      var mid := CountLevels(Kids(t)[i], level, table);
      CountLevelsAdds(Kids(t)[i], level, table);
      CountLevelsRowAdds(t, i + 1, level, mid);
    }
  }

  /** The largest value among the tallies of levels `0..n`. */
  function MaxTally(table: map<int, int>, n: nat): int {
    if n == 0 then 0
    else
      var rest := MaxTally(table, n - 1);
      if Tally(table, n - 1) > rest then Tally(table, n - 1) else rest
  }

  /** The largest number of nodes on one level among the first `n` levels. */
  function WidestLevel(t: Position, n: nat): (r: nat)
    ensures forall l :: 0 <= l < n ==> LevelCount(t, l) <= r
    ensures n > 0 ==> exists l :: 0 <= l < n && LevelCount(t, l) == r
  {
    if n == 0 then 0
    else
      var rest := WidestLevel(t, n - 1);
      if LevelCount(t, n - 1) > rest then LevelCount(t, n - 1) else rest
  }

  lemma {:induction false} MaxTallyIsWidest(t: Position, n: nat)
    requires forall l :: Tally(CountLevels(t, 0, map[]), l) == (if l >= 0 then LevelCount(t, l) else 0)
    ensures MaxTally(CountLevels(t, 0, map[]), n) == WidestLevel(t, n)
  {
    if n > 0 {
      MaxTallyIsWidest(t, n - 1);
    }
  }

  /** `maxWidth` in `calculatePageSize`: the largest tally of the map the
      traversal fills. Its keys are the levels `0..depth-1` (proved below),
      so the maximum over its values is the maximum over those levels. */
  function MaxWidth(t: Position): int {
    MaxTally(CountLevels(t, 0, map[]), Depth(t))
  }

  /** The widest level: the tally's keys are the levels of the tree, its
      maximum is the node count of some level and no level holds more. */
  lemma MaxWidthSpec(t: Position)
    ensures forall l :: l in CountLevels(t, 0, map[]) <==> 0 <= l < Depth(t)
    ensures forall l: nat :: LevelCount(t, l) <= MaxWidth(t)
    ensures exists l :: 0 <= l < Depth(t) && LevelCount(t, l) == MaxWidth(t)
    ensures 1 <= MaxWidth(t) <= Leaves(t)
  {
    CountLevelsAdds(t, 0, map[]);
    MaxTallyIsWidest(t, Depth(t));
    forall l: nat ensures LevelCount(t, l) <= MaxWidth(t) {
      if l >= Depth(t) {
        LevelOccupied(t, l);
      }
    }
    var l :| 0 <= l < Depth(t) && LevelCount(t, l) == MaxWidth(t);
    LevelWithinLeaves(t, l);
    assert LevelCount(t, 0) == 1;
  }

  // ---------------------------------------------------------------------
  // calculatePageSize

  datatype PageSize = PageSize(width: real, height: real)

  function Clamp(lo: real, v: real, hi: real): real {
    var atLeast := if lo > v then lo else v;
    if atLeast < hi then atLeast else hi
  }

  /** `calculatePageSize(data)`: the minimum page for `null`; otherwise the
      widest level times a slot width plus 20%, and the depth times a row
      height plus 30%, each with a fixed margin and clamped to the page
      bounds. */
  function CalculatePageSize(data: Option<Position>): (r: PageSize)
    ensures Style.MinPageWidth <= r.width <= Style.MaxPageWidth
    ensures Style.MinPageHeight <= r.height <= Style.MaxPageHeight
    ensures data.None? ==> r == PageSize(Style.MinPageWidth, Style.MinPageHeight)
  {
    if data.None? then PageSize(Style.MinPageWidth, Style.MinPageHeight)
    else
      var t := data.value;
      var maxWidth := MaxWidth(t);
      var depth := Depth(t);
      PageSize(
        Clamp(Style.MinPageWidth, maxWidth as real * Style.NodeWidthEffective * 1.2 + Style.PageWidthExtra, Style.MaxPageWidth),
        Clamp(Style.MinPageHeight, depth as real * Style.NodeHeightEffective * 1.3 + Style.PageHeightExtra, Style.MaxPageHeight))
  }

  /** Until it reaches the upper bound, the page is wide enough for the
      widest level with a fifth to spare, and tall enough for every level
      with three tenths to spare. */
  lemma PageSizeRoom(t: Position)
    ensures var r := CalculatePageSize(Some(t));
            forall l: nat :: r.width == Style.MaxPageWidth || r.width >= LevelCount(t, l) as real * Style.NodeWidthEffective * 1.2 + Style.PageWidthExtra
    ensures var r := CalculatePageSize(Some(t));
            r.height == Style.MaxPageHeight || r.height >= Depth(t) as real * Style.NodeHeightEffective * 1.3 + Style.PageHeightExtra
  {
    MaxWidthSpec(t);
    var r := CalculatePageSize(Some(t));
    forall l: nat ensures r.width == Style.MaxPageWidth || r.width >= LevelCount(t, l) as real * Style.NodeWidthEffective * 1.2 + Style.PageWidthExtra {
      assert LevelCount(t, l) <= MaxWidth(t);
      assert LevelCount(t, l) as real <= MaxWidth(t) as real;
    }
  }

  /** A tree with no more nodes on any level than another gets a page no
      larger in either direction. */
  lemma PageSizeMonotone(a: Position, b: Position)
    requires forall l: nat :: LevelCount(a, l) <= LevelCount(b, l)
    ensures CalculatePageSize(Some(a)).width <= CalculatePageSize(Some(b)).width
    ensures CalculatePageSize(Some(a)).height <= CalculatePageSize(Some(b)).height
  {
    MaxWidthSpec(a);
    MaxWidthSpec(b);
    var l :| 0 <= l < Depth(a) && LevelCount(a, l) == MaxWidth(a);
    assert MaxWidth(a) <= MaxWidth(b);
    LevelOccupied(a, Depth(a) - 1);
    LevelOccupied(b, Depth(a) - 1);
    assert Depth(a) <= Depth(b);
    assert MaxWidth(a) as real <= MaxWidth(b) as real;
    assert Depth(a) as real <= Depth(b) as real;
  }
}
