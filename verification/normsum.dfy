/** `sumNorm`: the total of the norms over a tree of positions. */
module NormTotals {
  import opened Wrappers
  import opened Positions
  import Jdk

  /** The total in unbounded arithmetic: the node's norm (0 when `null`) plus
      the totals of its children. */
  function TreeSum(t: Position): int
    decreases t, 1
  {
    GetNorm(t) + RowSum(t, 0)
  }

  function RowSum(t: Position, i: nat): int
    requires i <= |Kids(t)|
    decreases t, 0, |Kids(t)| - i
  {
    if i == |Kids(t)| then 0
    else
      KidSmaller(t, i);
      TreeSum(Kids(t)[i]) + RowSum(t, i + 1)
  }

  /** `sumNorm(node)` as intended: 0 for `null`, otherwise the exact total. */
  function SumNorm(node: Option<Position>): int {
    if node.None? then 0 else TreeSum(node.value)
  }

  // ---------------------------------------------------------------------
  // Reference: the norms listed node by node

  /** Every node of the tree, each before its children, children left to right. */
  function Preorder(t: Position): (r: seq<Position>)
    ensures |r| > 0 && r[0] == t
    decreases t, 1
  {
    [t] + PreorderRow(t, 0)
  }

  function PreorderRow(t: Position, i: nat): seq<Position>
    requires i <= |Kids(t)|
    decreases t, 0, |Kids(t)| - i
  {
    if i == |Kids(t)| then []
    else
      KidSmaller(t, i);
      Preorder(Kids(t)[i]) + PreorderRow(t, i + 1)
  }

  /** The sum of the norms of a list of positions. */
  function NormsOf(ps: seq<Position>): int {
    if |ps| == 0 then 0 else GetNorm(ps[0]) + NormsOf(ps[1..])
  }

  lemma {:induction false} NormsOfConcat(a: seq<Position>, b: seq<Position>)
    ensures NormsOf(a + b) == NormsOf(a) + NormsOf(b)
  {
    if |a| > 0 {
      assert (a + b)[1..] == a[1..] + b;
      NormsOfConcat(a[1..], b);
    } else {
      assert a + b == b;
    }
  }

  /** The recursive total is the sum over all nodes of the tree. */
  lemma {:induction false} TreeSumIsNodeSum(t: Position)
    ensures TreeSum(t) == NormsOf(Preorder(t))
    decreases t, 1
  {
    RowSumIsNodeSum(t, 0);
    NormsOfConcat([t], PreorderRow(t, 0));
  }

  lemma {:induction false} RowSumIsNodeSum(t: Position, i: nat)
    requires i <= |Kids(t)|
    ensures RowSum(t, i) == NormsOf(PreorderRow(t, i))
    decreases t, 0, |Kids(t)| - i
  {
    if i < |Kids(t)| {
      KidSmaller(t, i);
      TreeSumIsNodeSum(Kids(t)[i]);
      RowSumIsNodeSum(t, i + 1);
      NormsOfConcat(Preorder(Kids(t)[i]), PreorderRow(t, i + 1));
    }
  }

  lemma {:induction false} NormsOfNonNegative(ps: seq<Position>)
    requires forall k :: 0 <= k < |ps| ==> GetNorm(ps[k]) >= 0
    ensures NormsOf(ps) >= 0
  {
    if |ps| > 0 {
      NormsOfNonNegative(ps[1..]);
    }
  }

  /** A row of subtrees whose totals are not negative has a total that is not negative. */
  lemma {:induction false} RowSumNonNegative(t: Position, i: nat)
    requires i <= |Kids(t)|
    requires forall j :: i <= j < |Kids(t)| ==> TreeSum(Kids(t)[j]) >= 0
    ensures RowSum(t, i) >= 0
    decreases |Kids(t)| - i
  {
    if i < |Kids(t)| {
      RowSumNonNegative(t, i + 1);
    }
  }

  /** With no negative norm anywhere in the tree, the total is not negative. */
  lemma SumNormNonNegative(t: Position)
    requires forall k :: 0 <= k < |Preorder(t)| ==> GetNorm(Preorder(t)[k]) >= 0
    ensures SumNorm(Some(t)) >= 0
  {
    TreeSumIsNodeSum(t);
    NormsOfNonNegative(Preorder(t));
  }

  /** A root with norm 5 over children with norm 3 and `null` totals 8. */
  lemma SumNormExample()
    ensures var a := NewPosition().(norm := Some(3));
            var b := NewPosition().(norm := None);
            SumNorm(Some(NewPosition().(norm := Some(5), positions := List([a, b])))) == 8
  {
    var a := NewPosition().(norm := Some(3));
    var b := NewPosition().(norm := None);
    var t := NewPosition().(norm := Some(5), positions := List([a, b]));
    assert Kids(t)[0] == a && Kids(t)[1] == b;
    assert TreeSum(a) == 3 && TreeSum(b) == 0;
    assert RowSum(t, 2) == 0;
    assert RowSum(t, 1) == 0;
    assert RowSum(t, 0) == 3;
  }

  // ---------------------------------------------------------------------
  // The code as written: `int total`, so every addition wraps around

  /** `sumNorm` with Java `int` arithmetic: `total` starts at the node's norm
      and each child's total is added with 32-bit wrap-around. */
  function TreeSumInt32(t: Position): (r: int)
    ensures Jdk.InInt32(r)
    decreases t, 1
  {
    RowSumInt32(t, 0, Jdk.Wrap32(GetNorm(t)))
  }

  function RowSumInt32(t: Position, i: nat, total: int): (r: int)
    requires i <= |Kids(t)| && Jdk.InInt32(total)
    ensures Jdk.InInt32(r)
    decreases t, 0, |Kids(t)| - i
  {
    if i == |Kids(t)| then total
    else
      KidSmaller(t, i);
      RowSumInt32(t, i + 1, Jdk.Wrap32(total + TreeSumInt32(Kids(t)[i])))
  }

  function SumNormInt32(node: Option<Position>): (r: int)
    ensures Jdk.InInt32(r)
  {
    if node.None? then 0 else TreeSumInt32(node.value)
  }

  /** The code as written returns the exact total reduced to 32 bits. */
  lemma {:induction false} TreeSumInt32Wraps(t: Position)
    ensures TreeSumInt32(t) == Jdk.Wrap32(TreeSum(t))
    decreases t, 1
  {
    RowSumInt32Wraps(t, 0, Jdk.Wrap32(GetNorm(t)));
    Jdk.Wrap32Shift(GetNorm(t), RowSum(t, 0));
  }

  lemma {:induction false} RowSumInt32Wraps(t: Position, i: nat, total: int)
    requires i <= |Kids(t)| && Jdk.InInt32(total)
    ensures RowSumInt32(t, i, total) == Jdk.Wrap32(total + RowSum(t, i))
    decreases t, 0, |Kids(t)| - i
  {
    if i < |Kids(t)| {
      KidSmaller(t, i);
      var kid := Kids(t)[i];
      TreeSumInt32Wraps(kid);
      var next := Jdk.Wrap32(total + TreeSumInt32(kid));
      RowSumInt32Wraps(t, i + 1, next);
      Jdk.Wrap32Shift(total + TreeSumInt32(kid), RowSum(t, i + 1));
      Jdk.Wrap32Shift(TreeSum(kid), total + RowSum(t, i + 1));
      assert total + TreeSumInt32(kid) + RowSum(t, i + 1) == Jdk.Wrap32(TreeSum(kid)) + (total + RowSum(t, i + 1));
    } else {
      assert Jdk.Wrap32(total) == total;
    }
  }

  /** A root with norm `Integer.MAX_VALUE` over one child with norm 1: the
      code as written reports a negative total. */
  lemma SumNormOverflows()
    ensures var t := NewPosition().(norm := Some(Jdk.MaxInt32), positions := List([NewPosition().(norm := Some(1))]));
            SumNorm(Some(t)) == Jdk.MaxInt32 + 1 && SumNormInt32(Some(t)) == Jdk.MinInt32
  {
    var c := NewPosition().(norm := Some(1));
    var t := NewPosition().(norm := Some(Jdk.MaxInt32), positions := List([c]));
    assert Kids(t)[0] == c;
    assert TreeSum(c) == 1;
    assert RowSum(t, 1) == 0;
    TreeSumInt32Wraps(t);
    Jdk.Wrap32Congruent(Jdk.MaxInt32 + 1, Jdk.MinInt32);
  }
}
