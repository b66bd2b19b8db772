/** `layoutTree` and `layoutNode`: every node of the tree gets a box of the
    fixed node size; children sit one row lower, left to right, each taking
    the horizontal footprint its own subtree reports, and a parent with
    several children is centred over its first and last child.

    Java keys the result map by node identity. A tree built by the parser
    never shares a node, so a node is identified here by its path of child
    indices from the root. */
module Layout {
  import opened Wrappers
  import opened Positions
  import Style
  import TreeShape

  /** `NodeLayout`: the top-left corner of the box (y grows upwards, as in a
      PDF page), its size, and its depth in the tree. */
  datatype NodeLayout = NodeLayout(x: real, y: real, width: real, height: real, level: int)

  type Boxes = map<seq<nat>, NodeLayout>

  /** What a node with exactly one child reports as its footprint: one node
      slot, as the code is written, or the larger of that and the child's own
      footprint, as the corrected layout does (see `NoOverlap`). */
  datatype SingleChild = OneSlot | Widened

  /** The row of the children of a node placed at height `y`. */
  function ChildRowY(y: real): real {
    y - Style.NodeHeight - Style.NodeContainerPaddingVertical * 2.0 - Style.ChildrenRowMarginTop
  }

  /** The footprint `layoutNode` returns for a node: one slot for a leaf;
      for a single child one slot, or the child's footprint when that is
      larger and the layout is widened; otherwise the sum over the children.
      It does not depend on where the node is placed. */
  function Footprint(t: Position, single: SingleChild): real
    decreases t, 1
  {
    if IsLeaf(t) then Style.NodeWidthEffective
    else if |Kids(t)| == 1 then
      KidSmaller(t, 0);
      var childWidth := Footprint(Kids(t)[0], single);
      if single == Widened && childWidth > Style.NodeWidthEffective then childWidth else Style.NodeWidthEffective
    else RowFootprint(t, 0, single)
  }

  /** `totalChildrenWidth` after the children `i..`. */
  function RowFootprint(t: Position, i: nat, single: SingleChild): real
    requires i <= |Kids(t)|
    decreases t, 0, |Kids(t)| - i
  {
    if i == |Kids(t)| then 0.0
    else
      KidSmaller(t, i);
      Footprint(Kids(t)[i], single) + RowFootprint(t, i + 1, single)
  }

  /** The x of a parent with several children: its centre is the midpoint of
      the centres of its first and last child, or of the row's two ends when
      one of them has no box. */
  function ParentX(below: Boxes, path: seq<nat>, n: nat, x: real, total: real): real {
    var first := path + [0];
    var last := path + [n - 1];
    var firstCenterX := if first in below then below[first].x + below[first].width / 2.0 else x + Style.NodeWidth / 2.0;
    var lastCenterX := if last in below then below[last].x + below[last].width / 2.0 else x + total - Style.NodeWidth / 2.0;
    (firstCenterX + lastCenterX) / 2.0 - Style.NodeWidth / 2.0
  }

  /** The boxes `layoutNode(node, x, y, level, layouts)` stores for the node
      at `path` and its subtree. */
  function Place(t: Position, x: real, y: real, level: int, path: seq<nat>, single: SingleChild): Boxes
    decreases t, 1
  {
    var box := NodeLayout(x, y, Style.NodeWidth, Style.NodeHeight, level);
    if IsLeaf(t) then map[path := box]
    else if |Kids(t)| == 1 then
      KidSmaller(t, 0);
      Place(Kids(t)[0], x, ChildRowY(y), level + 1, path + [0], single)[path := box]
    else
      var below := PlaceRow(t, 0, x, ChildRowY(y), level + 1, path, single);
      below[path := box.(x := ParentX(below, path, |Kids(t)|, x, RowFootprint(t, 0, single)))]
  }

  /** The loop over the children `i..` of the node at `path`, the first of
      them placed at `childX` and each next one a footprint further right. */
  function PlaceRow(t: Position, i: nat, childX: real, childY: real, level: int, path: seq<nat>, single: SingleChild): Boxes
    requires i <= |Kids(t)|
    decreases t, 0, |Kids(t)| - i
  {
    if i == |Kids(t)| then map[]
    else
      KidSmaller(t, i);
      Place(Kids(t)[i], childX, childY, level, path + [i], single)
        + PlaceRow(t, i + 1, childX + Footprint(Kids(t)[i], single), childY, level, path, single)
  }

  /** `layoutTree(root, startX, startY)`, as corrected: no boxes for `null`. */
  function LayoutTree(root: Option<Position>, startX: real, startY: real): Boxes {
    if root.None? then map[] else Place(root.value, startX, startY, 0, [], Widened)
  }

  /** `layoutTree` exactly as written. */
  function LayoutTreeAsWritten(root: Option<Position>, startX: real, startY: real): Boxes {
    if root.None? then map[] else Place(root.value, startX, startY, 0, [], OneSlot)
  }

  // ---------------------------------------------------------------------
  // Which nodes get a box

  /** `k` names a node at or below the node named `p`. */
  predicate Under(p: seq<nat>, k: seq<nat>) {
    |p| <= |k| && k[..|p|] == p
  }

  /** A path strictly below `p` goes through one child of the node at `p`. */
  lemma StepDown(t: Position, p: seq<nat>, k: seq<nat>)
    ensures Under(p, k) && |k| > |p| ==>
              (At(t, k[|p|..]).Some? <==> k[|p|] < |Kids(t)| && At(Kids(t)[k[|p|]], k[|p| + 1..]).Some?)
    ensures forall j :: Under(p + [j], k) <==> Under(p, k) && |k| > |p| && k[|p|] == j
  {
    if Under(p, k) && |k| > |p| {
      assert k[|p|..][1..] == k[|p| + 1..];
    }
    forall j ensures Under(p + [j], k) <==> Under(p, k) && |k| > |p| && k[|p|] == j {
      if |k| > |p| {
        assert k[..|p| + 1] == k[..|p|] + [k[|p|]];
      }
    }
  }

  /** The node named `k` gets a box exactly when it lies in the subtree. */
  lemma {:induction false} PlaceKey(t: Position, x: real, y: real, level: int, path: seq<nat>, single: SingleChild, k: seq<nat>)
    ensures k in Place(t, x, y, level, path, single) <==> Under(path, k) && At(t, k[|path|..]).Some?
    decreases t, 1
  {
    if k == path {
      assert k[|path|..] == [];
    } else if IsLeaf(t) {
      StepDown(t, path, k);
    } else if |Kids(t)| == 1 {
      KidSmaller(t, 0);
      StepDown(t, path, k);
      PlaceKey(Kids(t)[0], x, ChildRowY(y), level + 1, path + [0], single, k);
    } else {
      PlaceRowKey(t, 0, x, ChildRowY(y), level + 1, path, single, k);
    }
  }

  lemma {:induction false} PlaceRowKey(t: Position, i: nat, childX: real, childY: real, level: int, path: seq<nat>, single: SingleChild, k: seq<nat>)
    requires i <= |Kids(t)|
    ensures k in PlaceRow(t, i, childX, childY, level, path, single) <==>
              Under(path, k) && |k| > |path| && k[|path|] >= i && At(t, k[|path|..]).Some?
    decreases t, 0, |Kids(t)| - i
  {
    StepDown(t, path, k);
    if i < |Kids(t)| {
      KidSmaller(t, i);
      PlaceKey(Kids(t)[i], childX, childY, level, path + [i], single, k);
      PlaceRowKey(t, i + 1, childX + Footprint(Kids(t)[i], single), childY, level, path, single, k);
    }
  }

  /** Every node of the subtree gets a box and nothing else does. */
  lemma PlaceKeys(t: Position, x: real, y: real, level: int, path: seq<nat>, single: SingleChild)
    ensures forall k :: k in Place(t, x, y, level, path, single) <==> Under(path, k) && At(t, k[|path|..]).Some?
  {
    forall k ensures k in Place(t, x, y, level, path, single) <==> Under(path, k) && At(t, k[|path|..]).Some? {
      PlaceKey(t, x, y, level, path, single, k);
    }
  }

  // ---------------------------------------------------------------------
  // Footprints

  /** No node of the tree has exactly one child. */
  predicate NoSingleChild(t: Position)
    decreases t, 1
  {
    |Kids(t)| != 1 && NoSingleChildFrom(t, 0)
  }

  predicate NoSingleChildFrom(t: Position, i: nat)
    requires i <= |Kids(t)|
    decreases t, 0, |Kids(t)| - i
  {
    i == |Kids(t)| || (KidSmaller(t, i); NoSingleChild(Kids(t)[i]) && NoSingleChildFrom(t, i + 1))
  }

  /** A footprint is at least one slot and at most one slot per leaf (the
      leaf count is `calculateSubtreeWidth`). Widened, it is exactly one slot
      per leaf; as written, it is so whenever no node has a single child. */
  lemma {:induction false} FootprintBounds(t: Position, single: SingleChild)
    ensures Style.NodeWidthEffective <= Footprint(t, single) <= TreeShape.Leaves(t) as real * Style.NodeWidthEffective
    ensures single == Widened || NoSingleChild(t) ==> Footprint(t, single) == TreeShape.Leaves(t) as real * Style.NodeWidthEffective
    decreases t, 1
  {
    if |Kids(t)| == 1 {
      KidSmaller(t, 0);
      FootprintBounds(Kids(t)[0], single);
      assert TreeShape.LeavesRow(t, 1) == 0;
    } else if |Kids(t)| > 1 {
      RowFootprintBounds(t, 0, single);
    }
  }

  lemma {:induction false} RowFootprintBounds(t: Position, i: nat, single: SingleChild)
    requires i <= |Kids(t)|
    ensures (|Kids(t)| - i) as real * Style.NodeWidthEffective <= RowFootprint(t, i, single) <= TreeShape.LeavesRow(t, i) as real * Style.NodeWidthEffective
    ensures single == Widened || NoSingleChildFrom(t, i) ==> RowFootprint(t, i, single) == TreeShape.LeavesRow(t, i) as real * Style.NodeWidthEffective
    decreases t, 0, |Kids(t)| - i
  {
    if i < |Kids(t)| {
      KidSmaller(t, i);
      FootprintBounds(Kids(t)[i], single);
      RowFootprintBounds(t, i + 1, single);
    }
  }

  /** Where no node has a single child, the correction changes nothing: both
      layouts place every box at the same spot. */
  lemma {:induction false} CorrectionConservative(t: Position, x: real, y: real, level: int, path: seq<nat>)
    requires NoSingleChild(t)
    ensures Place(t, x, y, level, path, OneSlot) == Place(t, x, y, level, path, Widened)
    decreases t, 1
  {
    if |Kids(t)| > 1 {
      RowCorrectionConservative(t, 0, x, ChildRowY(y), level + 1, path);
      RowFootprintBounds(t, 0, OneSlot);
      RowFootprintBounds(t, 0, Widened);
    }
  }

  lemma {:induction false} RowCorrectionConservative(t: Position, i: nat, childX: real, childY: real, level: int, path: seq<nat>)
    requires i <= |Kids(t)| && NoSingleChildFrom(t, i)
    ensures PlaceRow(t, i, childX, childY, level, path, OneSlot) == PlaceRow(t, i, childX, childY, level, path, Widened)
    decreases t, 0, |Kids(t)| - i
  {
    if i < |Kids(t)| {
      KidSmaller(t, i);
      CorrectionConservative(Kids(t)[i], childX, childY, level, path + [i]);
      FootprintBounds(Kids(t)[i], OneSlot);
      FootprintBounds(Kids(t)[i], Widened);
      RowCorrectionConservative(t, i + 1, childX + Footprint(Kids(t)[i], Widened), childY, level, path);
    }
  }

  // ---------------------------------------------------------------------
  // The shape and place of every box

  /** Every box has the node size, the level of its depth below the start
      node and a top edge one row height lower per level; it never lies left
      of the start position and, widened, never reaches past the footprint. */
  lemma {:induction false} PlaceBox(t: Position, x: real, y: real, level: int, path: seq<nat>, single: SingleChild, k: seq<nat>)
    requires k in Place(t, x, y, level, path, single)
    ensures var b := Place(t, x, y, level, path, single)[k];
            && b.width == Style.NodeWidth && b.height == Style.NodeHeight
            && b.level == level + |k| - |path|
            && b.y == y - (|k| - |path|) as real * Style.NodeHeightEffective
            && x <= b.x
            && (single == Widened ==> b.x <= x + Footprint(t, single) - Style.NodeWidthEffective)
    decreases t, 1
  {
    PlaceKey(t, x, y, level, path, single, k);
    FootprintBounds(t, single);
    if k != path && |Kids(t)| == 1 {
      KidSmaller(t, 0);
      PlaceBox(Kids(t)[0], x, ChildRowY(y), level + 1, path + [0], single, k);
    } else if k != path && |Kids(t)| > 1 {
      PlaceRowBox(t, 0, x, ChildRowY(y), level + 1, path, single, k);
    } else if |Kids(t)| > 1 {
      var below := PlaceRow(t, 0, x, ChildRowY(y), level + 1, path, single);
      var first := path + [0];
      var last := path + [|Kids(t)| - 1];
      ChildKey(t, path, 0);
      ChildKey(t, path, |Kids(t)| - 1);
      PlaceRowKey(t, 0, x, ChildRowY(y), level + 1, path, single, first);
      PlaceRowKey(t, 0, x, ChildRowY(y), level + 1, path, single, last);
      PlaceRowBox(t, 0, x, ChildRowY(y), level + 1, path, single, first);
      PlaceRowBox(t, 0, x, ChildRowY(y), level + 1, path, single, last);
    }
  }

  lemma {:induction false} PlaceRowBox(t: Position, i: nat, childX: real, childY: real, level: int, path: seq<nat>, single: SingleChild, k: seq<nat>)
    requires i <= |Kids(t)|
    requires k in PlaceRow(t, i, childX, childY, level, path, single)
    ensures var b := PlaceRow(t, i, childX, childY, level, path, single)[k];
            && b.width == Style.NodeWidth && b.height == Style.NodeHeight
            && b.level == level + |k| - |path| - 1
            && b.y == childY - (|k| - |path| - 1) as real * Style.NodeHeightEffective
            && childX <= b.x
            && (single == Widened ==> b.x <= childX + RowFootprint(t, i, single) - Style.NodeWidthEffective)
    decreases t, 0, |Kids(t)| - i
  {
    PlaceRowKey(t, i, childX, childY, level, path, single, k);
    KidSmaller(t, i);
    var kid := Kids(t)[i];
    var next := childX + Footprint(kid, single);
    PlaceRowSplit(t, i, childX, childY, level, path, single, k);
    FootprintBounds(kid, single);
    RowFootprintBounds(t, i + 1, single);
    assert RowFootprint(t, i, single) == Footprint(kid, single) + RowFootprint(t, i + 1, single);
    if k[|path|] == i {
      PlaceBox(kid, childX, childY, level, path + [i], single, k);
    } else {
      PlaceRowBox(t, i + 1, next, childY, level, path, single, k);
    }
  }

  /** In either layout no box starts further right than one slot per leaf
      allows: the as-written layout squeezes a single child's subtree but
      never pushes a box past the subtree's leaf span. */
  lemma {:induction false} PlaceSpan(t: Position, x: real, y: real, level: int, path: seq<nat>, single: SingleChild, k: seq<nat>)
    requires k in Place(t, x, y, level, path, single)
    ensures Place(t, x, y, level, path, single)[k].x <= x + TreeShape.Leaves(t) as real * Style.NodeWidthEffective - Style.NodeWidthEffective
    decreases t, 1
  {
    PlaceKey(t, x, y, level, path, single, k);
    if k != path && |Kids(t)| == 1 {
      KidSmaller(t, 0);
      PlaceSpan(Kids(t)[0], x, ChildRowY(y), level + 1, path + [0], single, k);
      assert TreeShape.LeavesRow(t, 1) == 0;
    } else if k != path && |Kids(t)| > 1 {
      var below := PlaceRow(t, 0, x, ChildRowY(y), level + 1, path, single);
      PlaceRowSpan(t, 0, x, ChildRowY(y), level + 1, path, single, k);
      assert Place(t, x, y, level, path, single)[k] == below[k];
      assert TreeShape.Leaves(t) == TreeShape.LeavesRow(t, 0);
    } else if |Kids(t)| > 1 {
      ParentSpan(t, x, y, level, path, single);
    } else {
      FootprintBounds(t, single);
    }
  }

  /** A parent with several children sits between its first and last child,
      so within their span. */
  lemma {:induction false} ParentSpan(t: Position, x: real, y: real, level: int, path: seq<nat>, single: SingleChild)
    requires |Kids(t)| > 1
    ensures var m := Place(t, x, y, level, path, single);
            path in m && m[path].x <= x + TreeShape.Leaves(t) as real * Style.NodeWidthEffective - Style.NodeWidthEffective
    decreases t, 0, |Kids(t)| + 1
  {
    var m := Place(t, x, y, level, path, single);
    var below := PlaceRow(t, 0, x, ChildRowY(y), level + 1, path, single);
    var first := path + [0];
    var last := path + [|Kids(t)| - 1];
    ParentPlacement(t, x, y, level, path, single);
    ChildKey(t, path, 0);
    ChildKey(t, path, |Kids(t)| - 1);
    PlaceRowKey(t, 0, x, ChildRowY(y), level + 1, path, single, first);
    PlaceRowKey(t, 0, x, ChildRowY(y), level + 1, path, single, last);
    PlaceRowSpan(t, 0, x, ChildRowY(y), level + 1, path, single, first);
    PlaceRowSpan(t, 0, x, ChildRowY(y), level + 1, path, single, last);
    assert first != path && last != path;
    assert m[first] == below[first] && m[last] == below[last];
    assert TreeShape.Leaves(t) == TreeShape.LeavesRow(t, 0);
  }

  lemma {:induction false} PlaceRowSpan(t: Position, i: nat, childX: real, childY: real, level: int, path: seq<nat>, single: SingleChild, k: seq<nat>)
    requires i <= |Kids(t)|
    requires k in PlaceRow(t, i, childX, childY, level, path, single)
    ensures PlaceRow(t, i, childX, childY, level, path, single)[k].x <= childX + TreeShape.LeavesRow(t, i) as real * Style.NodeWidthEffective - Style.NodeWidthEffective
    decreases t, 0, |Kids(t)| - i
  {
    PlaceRowSplit(t, i, childX, childY, level, path, single, k);
    KidSmaller(t, i);
    var kid := Kids(t)[i];
    var next := childX + Footprint(kid, single);
    var w := Style.NodeWidthEffective;
    var here := TreeShape.Leaves(kid) as real * w;
    var later := TreeShape.LeavesRow(t, i + 1) as real * w;
    assert TreeShape.LeavesRow(t, i) as real * w == here + later;
    if k[|path|] == i {
      PlaceSpan(kid, childX, childY, level, path + [i], single, k);
    } else {
      FootprintBounds(kid, single);
      PlaceRowSpan(t, i + 1, next, childY, level, path, single, k);
    }
  }

  /** A box of the row comes from the child its name passes through. */
  lemma PlaceRowSplit(t: Position, i: nat, childX: real, childY: real, level: int, path: seq<nat>, single: SingleChild, k: seq<nat>)
    requires i <= |Kids(t)|
    requires k in PlaceRow(t, i, childX, childY, level, path, single)
    ensures i < |Kids(t)| && |k| > |path| && k[|path|] >= i
    ensures k[|path|] == i ==>
              var here := Place(Kids(t)[i], childX, childY, level, path + [i], single);
              k in here && PlaceRow(t, i, childX, childY, level, path, single)[k] == here[k]
    ensures k[|path|] != i ==>
              var rest := PlaceRow(t, i + 1, childX + Footprint(Kids(t)[i], single), childY, level, path, single);
              k in rest && PlaceRow(t, i, childX, childY, level, path, single)[k] == rest[k]
  {
    PlaceRowKey(t, i, childX, childY, level, path, single, k);
    KidSmaller(t, i);
    var next := childX + Footprint(Kids(t)[i], single);
    PlaceKey(Kids(t)[i], childX, childY, level, path + [i], single, k);
    PlaceRowKey(t, i + 1, next, childY, level, path, single, k);
  }

  /** The child `j` of the node at `p` is named `p + [j]`. */
  lemma ChildKey(t: Position, p: seq<nat>, j: nat)
    requires j < |Kids(t)|
    ensures Under(p, p + [j]) && |p + [j]| > |p| && (p + [j])[|p|] == j
    ensures At(t, (p + [j])[|p|..]).Some?
  {
    assert (p + [j])[..|p|] == p;
    assert (p + [j])[|p|..] == [j];
    assert [j][1..] == [];
  }

  /** The node's own box: at the start position when it has at most one
      child; with several children, its centre is the midpoint of the centres
      of its first and last child. */
  lemma ParentPlacement(t: Position, x: real, y: real, level: int, path: seq<nat>, single: SingleChild)
    ensures var m := Place(t, x, y, level, path, single);
            path in m && m[path] == NodeLayout(m[path].x, y, Style.NodeWidth, Style.NodeHeight, level)
    ensures var m := Place(t, x, y, level, path, single);
            |Kids(t)| <= 1 ==> m[path].x == x
    ensures var m := Place(t, x, y, level, path, single);
            var first := path + [0];
            var last := path + [|Kids(t)| - 1];
            |Kids(t)| > 1 ==>
              && first in m && last in m
              && m[path].x + Style.NodeWidth / 2.0 == ((m[first].x + Style.NodeWidth / 2.0) + (m[last].x + Style.NodeWidth / 2.0)) / 2.0
  {
    if |Kids(t)| > 1 {
      var m := Place(t, x, y, level, path, single);
      var first := path + [0];
      var last := path + [|Kids(t)| - 1];
      ChildKey(t, path, 0);
      ChildKey(t, path, |Kids(t)| - 1);
      PlaceRowKey(t, 0, x, ChildRowY(y), level + 1, path, single, first);
      PlaceRowKey(t, 0, x, ChildRowY(y), level + 1, path, single, last);
      PlaceRowBox(t, 0, x, ChildRowY(y), level + 1, path, single, first);
      PlaceRowBox(t, 0, x, ChildRowY(y), level + 1, path, single, last);
      assert first != path && last != path;
    }
  }

  /** The footprints of the children before child `j`: how far right of
      the parent's start the loop has moved when it reaches child `j`. */
  function FootprintsBefore(t: Position, j: nat, single: SingleChild): real
    requires j <= |Kids(t)|
  {
    if j == 0 then 0.0 else FootprintsBefore(t, j - 1, single) + Footprint(Kids(t)[j - 1], single)
  }

  /** Each child is laid out, with its whole subtree, one row lower and as
      far right of the parent's start as the children before it reach; a
      single child therefore starts at the parent's own x. */
  lemma ChildPlacement(t: Position, x: real, y: real, level: int, path: seq<nat>, single: SingleChild, j: nat, k: seq<nat>)
    requires j < |Kids(t)|
    requires k in Place(Kids(t)[j], x + FootprintsBefore(t, j, single), ChildRowY(y), level + 1, path + [j], single)
    ensures var sub := Place(Kids(t)[j], x + FootprintsBefore(t, j, single), ChildRowY(y), level + 1, path + [j], single);
            k in Place(t, x, y, level, path, single) && Place(t, x, y, level, path, single)[k] == sub[k]
  {
    KidSmaller(t, j);
    PlaceKey(Kids(t)[j], x + FootprintsBefore(t, j, single), ChildRowY(y), level + 1, path + [j], single, k);
    assert k != path;
    if |Kids(t)| > 1 {
      PlaceRowChild(t, 0, x, ChildRowY(y), level + 1, path, single, j, k);
    }
  }

  lemma {:induction false} PlaceRowChild(t: Position, i: nat, childX: real, childY: real, level: int, path: seq<nat>, single: SingleChild, j: nat, k: seq<nat>)
    requires i <= j < |Kids(t)|
    requires k in Place(Kids(t)[j], childX + (FootprintsBefore(t, j, single) - FootprintsBefore(t, i, single)), childY, level, path + [j], single)
    ensures var sub := Place(Kids(t)[j], childX + (FootprintsBefore(t, j, single) - FootprintsBefore(t, i, single)), childY, level, path + [j], single);
            k in PlaceRow(t, i, childX, childY, level, path, single) && PlaceRow(t, i, childX, childY, level, path, single)[k] == sub[k]
    decreases |Kids(t)| - i
  {
    KidSmaller(t, i);
    var next := childX + Footprint(Kids(t)[i], single);
    var here := Place(Kids(t)[i], childX, childY, level, path + [i], single);
    var rest := PlaceRow(t, i + 1, next, childY, level, path, single);
    assert PlaceRow(t, i, childX, childY, level, path, single) == here + rest;
    if i == j {
      PlaceKey(Kids(t)[j], childX, childY, level, path + [j], single, k);
      StepDown(t, path, k);
      PlaceRowKey(t, i + 1, next, childY, level, path, single, k);
      assert k !in rest;
    } else {
      var gap := FootprintsBefore(t, j, single) - FootprintsBefore(t, i, single);
      assert FootprintsBefore(t, i + 1, single) == FootprintsBefore(t, i, single) + Footprint(Kids(t)[i], single);
      assert next + (FootprintsBefore(t, j, single) - FootprintsBefore(t, i + 1, single)) == childX + gap;
      PlaceRowChild(t, i + 1, next, childY, level, path, single, j, k);
      assert k in rest;
    }
  }

  /** `layoutTree`, as written and as corrected: no boxes for `null`,
      otherwise one box for every node of the tree and for nothing else. */
  lemma LayoutTreeNodes(root: Option<Position>, startX: real, startY: real)
    ensures root.None? ==> LayoutTreeAsWritten(root, startX, startY) == map[] && LayoutTree(root, startX, startY) == map[]
    ensures root.Some? ==> forall k :: k in LayoutTreeAsWritten(root, startX, startY) <==> At(root.value, k).Some?
    ensures root.Some? ==> forall k :: k in LayoutTree(root, startX, startY) <==> At(root.value, k).Some?
  {
    if root.Some? {
      var t := root.value;
      forall k ensures k in Place(t, startX, startY, 0, [], OneSlot) <==> At(t, k).Some? {
        PlaceKey(t, startX, startY, 0, [], OneSlot, k);
        assert k[0..] == k;
      }
      forall k ensures k in Place(t, startX, startY, 0, [], Widened) <==> At(t, k).Some? {
        PlaceKey(t, startX, startY, 0, [], Widened, k);
        assert k[0..] == k;
      }
    }
  }

  /** Every box of `m`, the layout of `t` from `(startX, startY)`, has the
      node size and sits on the row of its depth, within the span of one
      slot per leaf to the right of the start. */
  predicate OnRows(m: Boxes, t: Position, startX: real, startY: real) {
    forall k :: k in m ==>
      && m[k] == NodeLayout(m[k].x, startY - |k| as real * Style.NodeHeightEffective, Style.NodeWidth, Style.NodeHeight, |k|)
      && startX <= m[k].x
      && m[k].x + Style.NodeWidthEffective <= startX + TreeShape.Leaves(t) as real * Style.NodeWidthEffective
  }

  lemma PlaceOnRows(t: Position, startX: real, startY: real, single: SingleChild)
    ensures OnRows(Place(t, startX, startY, 0, [], single), t, startX, startY)
  {
    var m := Place(t, startX, startY, 0, [], single);
    forall k | k in m
      ensures && m[k] == NodeLayout(m[k].x, startY - |k| as real * Style.NodeHeightEffective, Style.NodeWidth, Style.NodeHeight, |k|)
              && startX <= m[k].x
              && m[k].x + Style.NodeWidthEffective <= startX + TreeShape.Leaves(t) as real * Style.NodeWidthEffective
    {
      BoxOnRow(t, startX, startY, single, k);
    }
  }

  lemma BoxOnRow(t: Position, startX: real, startY: real, single: SingleChild, k: seq<nat>)
    requires k in Place(t, startX, startY, 0, [], single)
    ensures var b := Place(t, startX, startY, 0, [], single)[k];
            && b == NodeLayout(b.x, startY - |k| as real * Style.NodeHeightEffective, Style.NodeWidth, Style.NodeHeight, |k|)
            && startX <= b.x
            && b.x + Style.NodeWidthEffective <= startX + TreeShape.Leaves(t) as real * Style.NodeWidthEffective
  {
    PlaceBox(t, startX, startY, 0, [], single, k);
    PlaceSpan(t, startX, startY, 0, [], single, k);
  }

  /** The boxes `layoutTree` stores, as written and as corrected, lie on the
      rows of their depth, within one slot per leaf right of the start. */
  lemma LayoutTreeBoxes(t: Position, startX: real, startY: real)
    ensures OnRows(LayoutTreeAsWritten(Some(t), startX, startY), t, startX, startY)
    ensures OnRows(LayoutTree(Some(t), startX, startY), t, startX, startY)
  {
    PlaceOnRows(t, startX, startY, OneSlot);
    PlaceOnRows(t, startX, startY, Widened);
  }

  // ---------------------------------------------------------------------
  // Boxes never overlap in the corrected layout

  /** Two boxes share no interior point: one lies wholly left of, right of,
      above or below the other. */
  predicate Disjoint(a: NodeLayout, b: NodeLayout) {
    || a.x + a.width <= b.x || b.x + b.width <= a.x
    || a.y - a.height >= b.y || b.y - b.height >= a.y
  }

  /** Two distinct nodes on the same level of the corrected layout are at
      least one slot apart horizontally. */
  lemma {:induction false} PlaceApart(t: Position, x: real, y: real, level: int, path: seq<nat>, k1: seq<nat>, k2: seq<nat>)
    requires k1 in Place(t, x, y, level, path, Widened) && k2 in Place(t, x, y, level, path, Widened)
    requires k1 != k2 && |k1| == |k2|
    ensures var m := Place(t, x, y, level, path, Widened);
            m[k1].x + Style.NodeWidthEffective <= m[k2].x || m[k2].x + Style.NodeWidthEffective <= m[k1].x
    decreases t, 1
  {
    PlaceKey(t, x, y, level, path, Widened, k1);
    PlaceKey(t, x, y, level, path, Widened, k2);
    assert k1 != path && k2 != path;
    if |Kids(t)| == 1 {
      KidSmaller(t, 0);
      PlaceApart(Kids(t)[0], x, ChildRowY(y), level + 1, path + [0], k1, k2);
    } else if |Kids(t)| > 1 {
      PlaceRowApart(t, 0, x, ChildRowY(y), level + 1, path, k1, k2);
    }
  }

  lemma {:induction false} PlaceRowApart(t: Position, i: nat, childX: real, childY: real, level: int, path: seq<nat>, k1: seq<nat>, k2: seq<nat>)
    requires i <= |Kids(t)|
    requires k1 in PlaceRow(t, i, childX, childY, level, path, Widened) && k2 in PlaceRow(t, i, childX, childY, level, path, Widened)
    requires k1 != k2 && |k1| == |k2|
    ensures var m := PlaceRow(t, i, childX, childY, level, path, Widened);
            m[k1].x + Style.NodeWidthEffective <= m[k2].x || m[k2].x + Style.NodeWidthEffective <= m[k1].x
    decreases t, 0, |Kids(t)| - i
  {
    PlaceRowKey(t, i, childX, childY, level, path, Widened, k1);
    PlaceRowKey(t, i, childX, childY, level, path, Widened, k2);
    KidSmaller(t, i);
    var next := childX + Footprint(Kids(t)[i], Widened);
    PlaceKey(Kids(t)[i], childX, childY, level, path + [i], Widened, k1);
    PlaceKey(Kids(t)[i], childX, childY, level, path + [i], Widened, k2);
    PlaceRowKey(t, i + 1, next, childY, level, path, Widened, k1);
    PlaceRowKey(t, i + 1, next, childY, level, path, Widened, k2);
    if k1[|path|] == i && k2[|path|] == i {
      PlaceApart(Kids(t)[i], childX, childY, level, path + [i], k1, k2);
    } else if k1[|path|] == i {
      PlaceBox(Kids(t)[i], childX, childY, level, path + [i], Widened, k1);
      PlaceRowBox(t, i + 1, next, childY, level, path, Widened, k2);
    } else if k2[|path|] == i {
      PlaceBox(Kids(t)[i], childX, childY, level, path + [i], Widened, k2);
      PlaceRowBox(t, i + 1, next, childY, level, path, Widened, k1);
    } else {
      PlaceRowApart(t, i + 1, next, childY, level, path, k1, k2);
    }
  }

  /** The corrected layout never draws two boxes over each other: boxes on
      one level are a slot apart, which is wider than a box, and levels are
      a row height apart, which is taller than a box. */
  lemma NoOverlap(root: Position, startX: real, startY: real)
    ensures var m := LayoutTree(Some(root), startX, startY);
            forall k1, k2 :: k1 in m && k2 in m && k1 != k2 ==> Disjoint(m[k1], m[k2])
  {
    var m := LayoutTree(Some(root), startX, startY);
    forall k1, k2 | k1 in m && k2 in m && k1 != k2
      ensures Disjoint(m[k1], m[k2])
    {
      PlaceBox(root, startX, startY, 0, [], Widened, k1);
      PlaceBox(root, startX, startY, 0, [], Widened, k2);
      if |k1| == |k2| {
        PlaceApart(root, startX, startY, 0, [], k1, k2);
      }
    }
  }

  // ---------------------------------------------------------------------
  // The layout as written lets a single child's wide subtree run into its
  // neighbour's

  function Parent(kids: seq<Position>): Position {
    NewPosition().(positions := List(kids))
  }

  const Leaf: Position := NewPosition()
  /** A node with a single child that has two leaves. */
  const Fork: Position := Parent([Parent([Leaf, Leaf])])
  /** A chain of three nodes. */
  const Chain: Position := Parent([Parent([Leaf])])
  const OverlapTree: Position := Parent([Fork, Chain])

  /** The box of a leaf at level 3 at `x`, two rows below a node at `y`. */
  function Grandchild(x: real, y: real): NodeLayout {
    NodeLayout(x, ChildRowY(ChildRowY(y)), Style.NodeWidth, Style.NodeHeight, 3)
  }

  /** As written, `Fork` reports one slot although its two leaves sit one
      slot apart below it, with their parent centred between them and the
      top node at the start. */
  lemma ForkPlacement(x: real, y: real)
    ensures Footprint(Fork, OneSlot) == Style.NodeWidthEffective
    ensures var m := Place(Fork, x, y, 1, [0], OneSlot);
            && [0] in m && m[[0]].x == x
            && [0, 0] in m && m[[0, 0]].x == x + Style.NodeWidthEffective / 2.0
            && [0, 0, 0] in m && m[[0, 0, 0]] == Grandchild(x, y)
            && [0, 0, 1] in m && m[[0, 0, 1]] == Grandchild(x + Style.NodeWidthEffective, y)
  {
    var pair := Parent([Leaf, Leaf]);
    var y2 := ChildRowY(y);
    var x1 := x + Style.NodeWidthEffective;
    assert Kids(Fork) == [pair] && Kids(pair) == [Leaf, Leaf];
    assert [0] + [0] == [0, 0] && [0, 0] + [1] == [0, 0, 1] && [0, 0] + [0] == [0, 0, 0];
    var second := Place(Leaf, x1, ChildRowY(y2), 3, [0, 0, 1], OneSlot);
    assert second == map[[0, 0, 1] := Grandchild(x1, y)];
    assert PlaceRow(pair, 1, x1, ChildRowY(y2), 3, [0, 0], OneSlot) == second + map[];
    var row := PlaceRow(pair, 0, x, ChildRowY(y2), 3, [0, 0], OneSlot);
    assert row == Place(Leaf, x, ChildRowY(y2), 3, [0, 0, 0], OneSlot) + (second + map[]);
    assert row[[0, 0, 1]] == Grandchild(x1, y);
    assert row[[0, 0, 0]] == Grandchild(x, y);
    ParentPlacement(pair, x, y2, 2, [0, 0], OneSlot);
    var below := Place(pair, x, y2, 2, [0, 0], OneSlot);
    assert below[[0, 0, 1]] == Grandchild(x1, y);
    assert below[[0, 0, 0]] == Grandchild(x, y);
  }

  /** A single child is not drawn below its parent when it has several
      children of its own: it is centred over them, half a slot to the right
      of the parent, in both layouts. */
  lemma SingleChildOffCentre(y: real, single: SingleChild)
    ensures var m := Place(Fork, 0.0, y, 1, [0], single);
            && [0] in m && [0, 0] in m
            && m[[0]].x == 0.0 && m[[0, 0]].x == Style.NodeWidthEffective / 2.0
  {
    var pair := Parent([Leaf, Leaf]);
    var y2 := ChildRowY(y);
    assert Kids(Fork) == [pair] && Kids(pair) == [Leaf, Leaf];
    assert [0] + [0] == [0, 0];
    ParentPlacement(pair, 0.0, y2, 2, [0, 0], single);
    assert [0, 0] + [1] == [0, 0, 1] && [0, 0] + [0] == [0, 0, 0];
    var row := PlaceRow(pair, 0, 0.0, ChildRowY(y2), 3, [0, 0], single);
    var second := Place(Leaf, Style.NodeWidthEffective, ChildRowY(y2), 3, [0, 0, 1], single);
    assert PlaceRow(pair, 1, Style.NodeWidthEffective, ChildRowY(y2), 3, [0, 0], single) == second + map[];
    assert row == Place(Leaf, 0.0, ChildRowY(y2), 3, [0, 0, 0], single) + (second + map[]);
    assert row[[0, 0, 0]].x == 0.0 && row[[0, 0, 1]].x == Style.NodeWidthEffective;
  }

  lemma ChainPlacement(x: real, y: real)
    ensures var m := Place(Chain, x, y, 1, [1], OneSlot);
            [1, 0, 0] in m && m[[1, 0, 0]] == Grandchild(x, y)
  {
    var link := Parent([Leaf]);
    var y2 := ChildRowY(y);
    assert Kids(Chain) == [link] && Kids(link) == [Leaf];
    assert [1] + [0] == [1, 0] && [1, 0] + [0] == [1, 0, 0];
    assert Place(Leaf, x, ChildRowY(y2), 3, [1, 0, 0], OneSlot) == map[[1, 0, 0] := Grandchild(x, y)];
    assert Place(link, x, y2, 2, [1, 0], OneSlot)[[1, 0, 0]] == Grandchild(x, y);
  }

  /** As written, the second leaf under the first child of `OverlapTree` and
      the end of the chain under its second child get the very same box: the
      first child reports one slot although its subtree is two slots wide. */
  lemma SingleChildOverlap()
    ensures var m := LayoutTreeAsWritten(Some(OverlapTree), 0.0, 0.0);
            && [0, 0, 1] in m && [1, 0, 0] in m
            && m[[0, 0, 1]] == m[[1, 0, 0]]
            && !Disjoint(m[[0, 0, 1]], m[[1, 0, 0]])
  {
    var w := Style.NodeWidthEffective;
    var y1 := ChildRowY(0.0);
    ForkPlacement(0.0, y1);
    ChainPlacement(w, y1);
    assert Kids(OverlapTree) == [Fork, Chain];
    assert [] + [0] == [0] && [] + [1] == [1];
    var mine := Place(Fork, 0.0, y1, 1, [0], OneSlot);
    var others := Place(Chain, w, y1, 1, [1], OneSlot);
    assert PlaceRow(OverlapTree, 1, w, y1, 1, [], OneSlot) == others + map[];
    var row := PlaceRow(OverlapTree, 0, 0.0, y1, 1, [], OneSlot);
    assert row == mine + (others + map[]);
    PlaceKey(Chain, w, y1, 1, [1], OneSlot, [0, 0, 1]);
    assert row[[0, 0, 1]] == Grandchild(w, y1);
    assert row[[1, 0, 0]] == Grandchild(w, y1);
  }
}
