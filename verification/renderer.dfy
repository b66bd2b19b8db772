/** The geometry of `OrgChartRenderer`: the bounds of the laid-out boxes
    (`LayoutResult`), the page size chosen for them, where the tree starts
    below the header, the shift that centres the tree on the page, and the
    height and text baselines of the footer. Drawing itself (PDF content
    streams, fonts, images) is not modelled. */
module Render {
  import opened Wrappers
  import Jdk
  import Style
  import Layout
  import Positions
  import RenderText

  type NodeLayout = Layout.NodeLayout

  /** `Float.MAX_VALUE`, the largest finite `float`. */
  const FloatMaxValue: real := 340282346638528859811704183484516925440.0

  /** `Float.MIN_VALUE`: the smallest POSITIVE `float`, 2^-149. */
  const FloatMinValue: real := 1.0 / 713623846352979940529142984724747568191373312.0

  // ---------------------------------------------------------------------
  // LayoutResult: the bounds of the boxes

  /** The extent of a set of boxes: left and right edges, bottom and top. */
  datatype Bounds = Bounds(minX: real, maxX: real, minY: real, maxY: real)
  {
    function Width(): real { maxX - minX }
    function Height(): real { maxY - minY }
  }

  /** The extent of one box; its top edge is `y`, its bottom `y - height`. */
  function Extent(l: NodeLayout): Bounds {
    Bounds(l.x, l.x + l.width, l.y - l.height, l.y)
  }

  /** One pass of the loop over `layouts.values()`: each edge moves out to
      the box when the box lies beyond it. */
  function Extend(b: Bounds, l: NodeLayout): Bounds {
    Bounds(
      if l.x < b.minX then l.x else b.minX,
      if l.x + l.width > b.maxX then l.x + l.width else b.maxX,
      if l.y - l.height < b.minY then l.y - l.height else b.minY,
      if l.y > b.maxY then l.y else b.maxY)
  }

  /** The loop over the boxes, in iteration order, from the given seed. */
  function Scan(seed: Bounds, ls: seq<NodeLayout>): Bounds
  {
    if |ls| == 0 then seed else Extend(Scan(seed, ls[..|ls| - 1]), ls[|ls| - 1])
  }

  /** The seeds the constructor starts from: `Float.MAX_VALUE` for the
      minima and `Float.MIN_VALUE` for the maxima. */
  const SeedAsWritten: Bounds := Bounds(FloatMaxValue, FloatMinValue, FloatMaxValue, FloatMinValue)

  /** `new LayoutResult(layouts)` as written, `ls` being `layouts.values()`
      in the map's iteration order: all zero for no boxes. */
  function BoundsAsWritten(ls: seq<NodeLayout>): Bounds {
    if |ls| == 0 then Bounds(0.0, 0.0, 0.0, 0.0) else Scan(SeedAsWritten, ls)
  }

  /** The corrected constructor: the same loop, seeded with the first box
      (the role a seed of `-Float.MAX_VALUE` for the maxima plays in `float`
      arithmetic), so that every edge is an edge of some box. */
  function BoundsOf(ls: seq<NodeLayout>): Bounds {
    if |ls| == 0 then Bounds(0.0, 0.0, 0.0, 0.0) else Scan(Extent(ls[0]), ls[1..])
  }

  /** `b` holds the box `l`. */
  predicate Encloses(b: Bounds, l: NodeLayout) {
    b.minX <= l.x && l.x + l.width <= b.maxX && b.minY <= l.y - l.height && l.y <= b.maxY
  }

  /** `b` holds `a`. */
  predicate Within(a: Bounds, b: Bounds) {
    b.minX <= a.minX && a.maxX <= b.maxX && b.minY <= a.minY && a.maxY <= b.maxY
  }

  /** Every edge of `b` is the edge of `seed` or of one of the boxes. */
  predicate EdgesFrom(b: Bounds, seed: Bounds, ls: seq<NodeLayout>) {
    && (b.minX == seed.minX || exists i :: 0 <= i < |ls| && b.minX == ls[i].x)
    && (b.maxX == seed.maxX || exists i :: 0 <= i < |ls| && b.maxX == ls[i].x + ls[i].width)
    && (b.minY == seed.minY || exists i :: 0 <= i < |ls| && b.minY == ls[i].y - ls[i].height)
    && (b.maxY == seed.maxY || exists i :: 0 <= i < |ls| && b.maxY == ls[i].y)
  }

  /** The loop holds its seed and every box, and takes each edge from one
      of them. */
  lemma {:induction false} ScanSpec(seed: Bounds, ls: seq<NodeLayout>)
    ensures Within(seed, Scan(seed, ls))
    ensures forall i :: 0 <= i < |ls| ==> Encloses(Scan(seed, ls), ls[i])
    ensures EdgesFrom(Scan(seed, ls), seed, ls)
  {
    if |ls| > 0 {
      var n := |ls| - 1;
      var front := ls[..n];
      ScanSpec(seed, front);
      var b := Scan(seed, front);
      assert forall i :: 0 <= i < n ==> ls[i] == front[i];
      var e := Extend(b, ls[n]);
      assert forall i :: 0 <= i < n ==> Encloses(e, ls[i]) by {
        assert forall i :: 0 <= i < n ==> Encloses(b, front[i]);
      }
      assert EdgesFrom(e, seed, ls) by {
        assert EdgesFrom(b, seed, front);
      }
    }
  }

  /** The corrected bounds are the smallest that hold every box: each box
      lies inside, and each edge is the edge of some box. */
  lemma BoundsOfSpec(ls: seq<NodeLayout>)
    requires |ls| > 0
    ensures forall i :: 0 <= i < |ls| ==> Encloses(BoundsOf(ls), ls[i])
    ensures exists i :: 0 <= i < |ls| && BoundsOf(ls).minX == ls[i].x
    ensures exists i :: 0 <= i < |ls| && BoundsOf(ls).maxX == ls[i].x + ls[i].width
    ensures exists i :: 0 <= i < |ls| && BoundsOf(ls).minY == ls[i].y - ls[i].height
    ensures exists i :: 0 <= i < |ls| && BoundsOf(ls).maxY == ls[i].y
  {
    var rest := ls[1..];
    ScanSpec(Extent(ls[0]), rest);
    assert forall i :: 1 <= i < |ls| ==> ls[i] == rest[i - 1];
    var b := BoundsOf(ls);
    assert Encloses(b, ls[0]);
    assert forall i :: 0 <= i < |rest| ==> Encloses(b, rest[i]);
    if b.minX != ls[0].x {
      var i :| 0 <= i < |rest| && b.minX == rest[i].x;
      assert b.minX == ls[i + 1].x;
    }
    if b.maxX != ls[0].x + ls[0].width {
      var i :| 0 <= i < |rest| && b.maxX == rest[i].x + rest[i].width;
      assert b.maxX == ls[i + 1].x + ls[i + 1].width;
    }
    if b.minY != ls[0].y - ls[0].height {
      var i :| 0 <= i < |rest| && b.minY == rest[i].y - rest[i].height;
      assert b.minY == ls[i + 1].y - ls[i + 1].height;
    }
    if b.maxY != ls[0].y {
      var i :| 0 <= i < |rest| && b.maxY == rest[i].y;
      assert b.maxY == ls[i + 1].y;
    }
  }

  /** The pointwise smallest bounds holding both. */
  function Hull(a: Bounds, b: Bounds): Bounds {
    Bounds(
      if a.minX <= b.minX then a.minX else b.minX,
      if a.maxX >= b.maxX then a.maxX else b.maxX,
      if a.minY <= b.minY then a.minY else b.minY,
      if a.maxY >= b.maxY then a.maxY else b.maxY)
  }

  /** Seeding the loop with the hull of two seeds is taking the hull of one
      seed with the loop run from the other. */
  lemma {:induction false} ScanHull(s: Bounds, t: Bounds, ls: seq<NodeLayout>)
    ensures Scan(Hull(s, t), ls) == Hull(s, Scan(t, ls))
  {
    if |ls| > 0 {
      ScanHull(s, t, ls[..|ls| - 1]);
    }
  }

  lemma ScanFirst(seed: Bounds, ls: seq<NodeLayout>)
    requires |ls| > 0
    ensures Scan(seed, ls) == Scan(Extend(seed, ls[0]), ls[1..])
    decreases |ls|
  {
    if |ls| > 1 {
      var n := |ls| - 1;
      ScanFirst(seed, ls[..n]);
      assert ls[..n][1..] == ls[1..][..n - 1];
      assert ls[..n][0] == ls[0];
    } else {
      assert ls[..0] == [];
      assert ls[1..] == [];
    }
  }

  /** The constructor as written computes the corrected bounds pulled
      towards its seeds: the maxima never drop below `Float.MIN_VALUE`,
      which is positive, and the minima never rise above `Float.MAX_VALUE`. */
  lemma SeedLeaks(ls: seq<NodeLayout>)
    requires |ls| > 0
    ensures BoundsAsWritten(ls) == Hull(SeedAsWritten, BoundsOf(ls))
  {
    ScanFirst(SeedAsWritten, ls);
    assert Extend(SeedAsWritten, ls[0]) == Hull(SeedAsWritten, Extent(ls[0]));
    ScanHull(SeedAsWritten, Extent(ls[0]), ls[1..]);
  }

  /** The one box `layoutTree(root, 0, 0)` gives a lone root. */
  const RootBox: NodeLayout := Layout.NodeLayout(0.0, 0.0, Style.NodeWidth, Style.NodeHeight, 0)

  /** The top of the tree `layoutTree(root, 0, 0)` lays out is at 0, but
      the constructor as written reports `Float.MIN_VALUE` as its maximum y,
      while the corrected one reports 0. */
  lemma MaxYAboveTree()
    ensures BoundsAsWritten([RootBox]).maxY == FloatMinValue
    ensures BoundsOf([RootBox]).maxY == 0.0
  {
    SeedLeaks([RootBox]);
    assert [RootBox][1..] == [];
  }

  /** For boxes whose top is never above 0, the case for every layout the
      renderer asks for, the top edge as written is `Float.MIN_VALUE`. */
  lemma MaxYAsWritten(ls: seq<NodeLayout>)
    requires |ls| > 0
    requires forall i :: 0 <= i < |ls| ==> ls[i].y <= 0.0
    ensures BoundsAsWritten(ls).maxY == FloatMinValue
    ensures BoundsOf(ls).maxY <= 0.0
  {
    SeedLeaks(ls);
    BoundsOfSpec(ls);
  }

  // ---------------------------------------------------------------------
  // The page

  /** The height kept for the header in the page size: the title and the
      total-norm line with their margins. */
  const HeaderHeight: real := Style.HeaderFontSize + Style.HeaderMarginBottom + Style.TotalNormFontSize + Style.TotalNormMarginBottom

  /** The height kept for the footer in the page size. */
  const FooterHeight: real := Style.FooterImageHeight + Style.FooterMarginTop

  /** The page width of `renderPage`: the tree with the page padding and the
      extra horizontal padding on both sides, but never narrower than the
      minimum. The extra padding is a parameter: the constant
      `PAGE_EXTRA_HORIZONTAL_PADDING` the code reads is not part of this
      model. */
  function PageWidth(b: Bounds, extraPad: real): (r: real)
    ensures r >= Style.MinPageWidth
    ensures r >= b.Width() + 2.0 * Style.PagePadding + 2.0 * extraPad
    ensures r == Style.MinPageWidth || r == b.Width() + 2.0 * Style.PagePadding + 2.0 * extraPad
  {
    var required := b.Width() + Style.PagePadding * 2.0 + extraPad * 2.0;
    if Style.MinPageWidth >= required then Style.MinPageWidth else required
  }

  /** The page height of `renderPage`: the tree, the header, the footer and
      the padding above and below, but never shorter than the minimum. */
  function PageHeight(b: Bounds): (r: real)
    ensures r >= Style.MinPageHeight
    ensures r >= b.Height() + HeaderHeight + FooterHeight + 2.0 * Style.PagePadding
    ensures r == Style.MinPageHeight || r == b.Height() + HeaderHeight + FooterHeight + 2.0 * Style.PagePadding
  {
    var required := b.Height() + HeaderHeight + FooterHeight + Style.PagePadding * 2.0;
    if Style.MinPageHeight >= required then Style.MinPageHeight else required
  }

  /** `totalNormLabel != null && !totalNormLabel.trim().isEmpty()`. */
  predicate ShowsTotalNorm(normLabel: Option<string>) {
    normLabel.Some? && |Jdk.Trim(normLabel.value)| > 0
  }

  /** Where `drawOrganizationTree` starts: below the page padding and the
      title, and below the total-norm line when there is one. */
  function TreeTop(pageHeight: real, normLabel: Option<string>): (r: real)
    ensures r <= pageHeight - Style.PagePadding - Style.HeaderFontSize - Style.HeaderMarginBottom
    ensures r >= pageHeight - Style.PagePadding - Style.HeaderFontSize - Style.HeaderMarginBottom - Style.TotalNormFontSize
    ensures ShowsTotalNorm(normLabel) <==> r < pageHeight - Style.PagePadding - Style.HeaderFontSize - Style.HeaderMarginBottom
  {
    var afterHeader := pageHeight - Style.PagePadding - Style.HeaderFontSize - Style.HeaderMarginBottom;
    if ShowsTotalNorm(normLabel) then afterHeader - Style.TotalNormFontSize else afterHeader
  }

  /** The title `drawHeader` writes: "Organization Chart" when none is given,
      sanitized either way. */
  function HeaderTitle(title: Option<string>): (r: string)
    ensures |r| > 0
    ensures forall k :: 0 <= k < |r| ==> RenderText.IsAscii(r[k]) && !RenderText.IsBreak(r[k])
    ensures title.None? || |title.value| == 0 ==> r == "Organization Chart"
    ensures title.Some? && |title.value| > 0 ==> r == RenderText.SanitizeText(title)
  {
    var shown := if title.None? || |title.value| == 0 then "Organization Chart" else title.value;
    RenderText.SanitizeKeepsPlainText("Organization Chart");
    RenderText.SanitizeText(Some(shown))
  }

  // ---------------------------------------------------------------------
  // Placing the tree on the page

  /** The boxes of `drawOrganizationTree`: every box moved by one offset
      that centres the bounds `b` across the page and puts their top at
      `startY`. */
  function Translate(m: Layout.Boxes, b: Bounds, pageWidth: real, startY: real): (r: Layout.Boxes)
    ensures r.Keys == m.Keys
    ensures forall k :: k in m ==>
              && r[k].width == m[k].width && r[k].height == m[k].height && r[k].level == m[k].level
    ensures forall k1, k2 :: k1 in m && k2 in m ==>
              r[k1].x - m[k1].x == r[k2].x - m[k2].x && r[k1].y - m[k1].y == r[k2].y - m[k2].y
  {
    var offsetX := (pageWidth - b.Width()) / 2.0 - b.minX;
    var offsetY := startY - b.maxY;
    map k | k in m :: m[k].(x := m[k].x + offsetX, y := m[k].y + offsetY)
  }

  /** Boxes held by `b` land between the margins that centre `b` on the
      page, with nothing above `startY`; a box on an edge of `b` lands on
      the matching margin. */
  lemma TranslateFrame(m: Layout.Boxes, b: Bounds, pageWidth: real, startY: real)
    requires forall k :: k in m ==> Encloses(b, m[k])
    ensures var r := Translate(m, b, pageWidth, startY);
            forall k :: k in r ==>
              && (pageWidth - b.Width()) / 2.0 <= r[k].x
              && r[k].x + r[k].width <= (pageWidth + b.Width()) / 2.0
              && r[k].y <= startY
              && r[k].y - r[k].height >= startY - b.Height()
              && (m[k].x == b.minX ==> r[k].x == (pageWidth - b.Width()) / 2.0)
              && (m[k].y == b.maxY ==> r[k].y == startY)
  {
  }

  /** The values of the layout map in the iteration order `order`, which
      lists every key once. */
  predicate ListsKeys(m: Layout.Boxes, order: seq<seq<nat>>) {
    && (forall i :: 0 <= i < |order| ==> order[i] in m)
    && (forall k :: k in m ==> k in order)
  }

  function Values(m: Layout.Boxes, order: seq<seq<nat>>): (ls: seq<NodeLayout>)
    requires forall i :: 0 <= i < |order| ==> order[i] in m
    ensures |ls| == |order|
    ensures forall i :: 0 <= i < |order| ==> ls[i] == m[order[i]]
    ensures forall l :: l in ls ==> l in m.Values
    ensures ListsKeys(m, order) ==> forall l :: l in m.Values ==> l in ls
  {
    seq(|order|, i requires 0 <= i < |order| => m[order[i]])
  }

  /** The page `render` and `renderPage` build for a root: the boxes of
      `layoutTree(root, 0, 0)` as written, the bounds `new LayoutResult`
      computes from them as written, the page size, the top of the tree and
      the shifted boxes. */
  function PageLayout(root: Positions.Position, order: seq<seq<nat>>, extraPad: real, normLabel: Option<string>): (r: (Bounds, real, real, Layout.Boxes))
    requires ListsKeys(Layout.LayoutTreeAsWritten(Some(root), 0.0, 0.0), order)
    ensures r.3.Keys == Layout.LayoutTreeAsWritten(Some(root), 0.0, 0.0).Keys
    ensures r.1 >= Style.MinPageWidth && r.1 >= r.0.Width() + 2.0 * Style.PagePadding + 2.0 * extraPad
    ensures r.2 >= Style.MinPageHeight && r.2 >= r.0.Height() + HeaderHeight + FooterHeight + 2.0 * Style.PagePadding
  {
    var m := Layout.LayoutTreeAsWritten(Some(root), 0.0, 0.0);
    var b := BoundsAsWritten(Values(m, order));
    var pw := PageWidth(b, extraPad);
    var ph := PageHeight(b);
    (b, pw, ph, Translate(m, b, pw, TreeTop(ph, normLabel)))
  }

  /** The same page built from the corrected layout and the corrected bounds. */
  function CorrectedPageLayout(root: Positions.Position, order: seq<seq<nat>>, extraPad: real, normLabel: Option<string>): (r: (Bounds, real, real, Layout.Boxes))
    requires ListsKeys(Layout.LayoutTree(Some(root), 0.0, 0.0), order)
    ensures r.3.Keys == Layout.LayoutTree(Some(root), 0.0, 0.0).Keys
    ensures r.1 >= Style.MinPageWidth && r.1 >= r.0.Width() + 2.0 * Style.PagePadding + 2.0 * extraPad
    ensures r.2 >= Style.MinPageHeight && r.2 >= r.0.Height() + HeaderHeight + FooterHeight + 2.0 * Style.PagePadding
  {
    var m := Layout.LayoutTree(Some(root), 0.0, 0.0);
    var b := BoundsOf(Values(m, order));
    var pw := PageWidth(b, extraPad);
    var ph := PageHeight(b);
    (b, pw, ph, Translate(m, b, pw, TreeTop(ph, normLabel)))
  }

  /** The y of the footer's top border (see `FooterBorderY`). */
  const FooterBorder: real := 175.0

  /** Moving every box by the same offset keeps boxes apart. */
  lemma TranslateKeepsApart(m: Layout.Boxes, b: Bounds, pageWidth: real, startY: real)
    requires forall k1, k2 :: k1 in m && k2 in m && k1 != k2 ==> Layout.Disjoint(m[k1], m[k2])
    ensures var r := Translate(m, b, pageWidth, startY);
            forall k1, k2 :: k1 in r && k2 in r && k1 != k2 ==> Layout.Disjoint(r[k1], r[k2])
  {
  }

  /** The bounds of the listed values hold every box of the map, both as
      the constructor computes them and as corrected. */
  lemma ValuesEnclosed(m: Layout.Boxes, order: seq<seq<nat>>)
    requires ListsKeys(m, order) && |m| > 0
    ensures forall k :: k in m ==> Encloses(BoundsAsWritten(Values(m, order)), m[k])
    ensures forall k :: k in m ==> Encloses(BoundsOf(Values(m, order)), m[k])
  {
    var ls := Values(m, order);
    var k0 :| k0 in m;
    assert k0 in order;
    BoundsOfSpec(ls);
    ScanSpec(SeedAsWritten, ls);
    forall k | k in m ensures Encloses(BoundsOf(ls), m[k]) && Encloses(BoundsAsWritten(ls), m[k]) {
      var i :| 0 <= i < |order| && order[i] == k;
      assert ls[i] == m[k];
    }
  }

  /** A page sized for bounds `b` holds them between its margins, and
      below the header they leave room above the footer's border. */
  lemma PageRoom(b: Bounds, extraPad: real, normLabel: Option<string>)
    requires extraPad >= 0.0
    ensures var pw := PageWidth(b, extraPad);
            var top := TreeTop(PageHeight(b), normLabel);
            && Style.PagePadding + extraPad <= (pw - b.Width()) / 2.0
            && (pw + b.Width()) / 2.0 <= pw - Style.PagePadding - extraPad
            && top - b.Height() > FooterBorder
  {
  }

  /** The shifted boxes `r` lie on a page of width `pw` and height `ph`:
      inside the padding (and the extra padding) on the left and right, below
      the header, and above the footer's border line. */
  predicate Framed(r: Layout.Boxes, pw: real, ph: real, extraPad: real, normLabel: Option<string>) {
    forall k :: k in r ==>
      && Style.PagePadding + extraPad <= r[k].x
      && r[k].x + r[k].width <= pw - Style.PagePadding - extraPad
      && r[k].y <= TreeTop(ph, normLabel)
      && r[k].y - r[k].height > FooterBorder
  }

  /** On the page the renderer builds, every node of the tree has a box, and
      every box is framed: inside the padding on the left and right, right
      below the header, above the footer's border line. */
  lemma TreeFitsPage(root: Positions.Position, order: seq<seq<nat>>, extraPad: real, normLabel: Option<string>)
    requires ListsKeys(Layout.LayoutTreeAsWritten(Some(root), 0.0, 0.0), order)
    requires extraPad >= 0.0
    ensures var (b, pw, ph, r) := PageLayout(root, order, extraPad, normLabel);
            && (forall k :: k in r <==> Positions.At(root, k).Some?)
            && Framed(r, pw, ph, extraPad, normLabel)
  {
    var m := Layout.LayoutTreeAsWritten(Some(root), 0.0, 0.0);
    Layout.LayoutTreeNodes(Some(root), 0.0, 0.0);
    assert Positions.At(root, []).Some?;
    ValuesEnclosed(m, order);
    var b := BoundsAsWritten(Values(m, order));
    var pw := PageWidth(b, extraPad);
    var top := TreeTop(PageHeight(b), normLabel);
    TranslateFrame(m, b, pw, top);
    PageRoom(b, extraPad, normLabel);
  }

  /** The corrected page is framed the same way, and on it no two boxes
      overlap. */
  lemma CorrectedTreeFitsPage(root: Positions.Position, order: seq<seq<nat>>, extraPad: real, normLabel: Option<string>)
    requires ListsKeys(Layout.LayoutTree(Some(root), 0.0, 0.0), order)
    requires extraPad >= 0.0
    ensures var (b, pw, ph, r) := CorrectedPageLayout(root, order, extraPad, normLabel);
            && (forall k :: k in r <==> Positions.At(root, k).Some?)
            && Framed(r, pw, ph, extraPad, normLabel)
            && (forall k1, k2 :: k1 in r && k2 in r && k1 != k2 ==> Layout.Disjoint(r[k1], r[k2]))
  {
    var m := Layout.LayoutTree(Some(root), 0.0, 0.0);
    Layout.LayoutTreeNodes(Some(root), 0.0, 0.0);
    Layout.NoOverlap(root, 0.0, 0.0);
    assert Positions.At(root, []).Some?;
    ValuesEnclosed(m, order);
    var b := BoundsOf(Values(m, order));
    var pw := PageWidth(b, extraPad);
    var top := TreeTop(PageHeight(b), normLabel);
    TranslateFrame(m, b, pw, top);
    TranslateKeepsApart(m, b, pw, top);
    PageRoom(b, extraPad, normLabel);
  }

  /** On the page the renderer builds for `OverlapTree`, two different
      nodes are drawn in the very same box. */
  lemma PageOverlapsAsWritten(order: seq<seq<nat>>, extraPad: real, normLabel: Option<string>)
    requires ListsKeys(Layout.LayoutTreeAsWritten(Some(Layout.OverlapTree), 0.0, 0.0), order)
    ensures var (b, pw, ph, r) := PageLayout(Layout.OverlapTree, order, extraPad, normLabel);
            && [0, 0, 1] in r && [1, 0, 0] in r
            && r[[0, 0, 1]] == r[[1, 0, 0]]
            && !Layout.Disjoint(r[[0, 0, 1]], r[[1, 0, 0]])
  {
    Layout.SingleChildOverlap();
  }

  // ---------------------------------------------------------------------
  // The footer

  /** The three footer lines, `null` read as "". */
  function FooterLines(preparedBy: Option<string>, docDate: Option<string>, lastUpdate: Option<string>): seq<string> {
    [preparedBy.GetOr([]), docDate.GetOr([]), lastUpdate.GetOr([])]
  }

  /** The count of non-empty lines, as the first loop of `drawFooter` takes it. */
  function CountNonEmpty(lines: seq<string>): (n: nat)
    ensures n <= |lines|
  {
    if |lines| == 0 then 0 else CountNonEmpty(lines[..|lines| - 1]) + (if |lines[|lines| - 1]| > 0 then 1 else 0)
  }

  /** The height of the footer text: the first line one font size, each
      further line 1.4 font sizes; nothing for no lines. */
  function TextBlockHeight(n: nat): (h: real)
    ensures n == 0 <==> h == 0.0
    ensures n > 0 ==> h >= Style.FooterTextFontSize
  {
    if n > 0 then (n - 1) as real * Style.FooterTextFontSize * 1.4 + Style.FooterTextFontSize else 0.0
  }

  /** The footer's bottom margin and the gap between its content and the border. */
  const FooterBottomMargin: real := 10.0
  const FooterBorderGap: real := 15.0

  /** The height of the footer content: the text or the image, whichever is taller. */
  function FooterContentHeight(n: nat): (h: real)
    ensures h >= TextBlockHeight(n) && h >= Style.FooterImageHeight
    ensures h == TextBlockHeight(n) || h == Style.FooterImageHeight
  {
    if TextBlockHeight(n) >= Style.FooterImageHeight then TextBlockHeight(n) else Style.FooterImageHeight
  }

  /** The y of the footer's top border line. */
  function FooterBorderY(n: nat): (y: real)
    ensures y - FooterBorderGap - FooterContentHeight(n) == FooterBottomMargin
  {
    FooterBottomMargin + FooterContentHeight(n) + FooterBorderGap
  }

  /** Three lines of text are shorter than the logo, so the border always
      sits at the same height, the one the page size leaves room for. */
  lemma FooterBorderFixed(preparedBy: Option<string>, docDate: Option<string>, lastUpdate: Option<string>)
    ensures var n := CountNonEmpty(FooterLines(preparedBy, docDate, lastUpdate));
            FooterContentHeight(n) == Style.FooterImageHeight && FooterBorderY(n) == FooterBorder
    ensures FooterBorder < FooterHeight
  {
  }

  /** The footer lines and baselines in the order the second loop of
      `drawFooter` draws them: from the last line to the first, skipping
      empty ones, each set 1.4 font sizes above the one drawn before,
      starting one font size above the bottom of the content. (Each line is
      shown through `sanitizeText`, see `RenderText.SanitizeText`.) */
  method FooterText(lines: seq<string>) returns (drawn: seq<(string, real)>)
    ensures |drawn| == CountNonEmpty(lines) == |Jdk.NonEmpty(lines)|
    ensures forall j :: 0 <= j < |drawn| ==> drawn[j].1 == Baseline(j)
    ensures forall j :: 0 <= j < |drawn| ==>
              drawn[j].0 == Jdk.NonEmpty(lines)[|drawn| - 1 - j]
  {
    drawn := [];
    var textY := FooterBottomMargin + Style.FooterTextFontSize;
    var i := |lines|;
    ghost var shown: seq<string> := [];
    assert lines[i..] == [];
    while i > 0
      invariant 0 <= i <= |lines|
      invariant shown == Jdk.NonEmpty(lines[i..])
      invariant |drawn| == |shown|
      invariant textY == Baseline(|drawn|)
      invariant forall j :: 0 <= j < |drawn| ==> drawn[j].1 == Baseline(j)
      invariant forall j :: 0 <= j < |drawn| ==> drawn[j].0 == shown[|shown| - 1 - j]
      decreases i
    {
      i := i - 1;
      var line := lines[i];
      NonEmptyFrom(lines, i);
      if |line| > 0 {
        drawn := drawn + [(line, textY)];
        textY := textY + Style.FooterTextFontSize * 1.4;
        shown := [line] + shown;
      }
    }
    assert lines[0..] == lines;
    CountIsNonEmpty(lines);
  }

  /** The baseline of the `j`-th footer line drawn, counting from the bottom. */
  function Baseline(j: nat): real {
    FooterBottomMargin + Style.FooterTextFontSize + j as real * Style.FooterTextFontSize * 1.4
  }

  lemma NonEmptyFrom(lines: seq<string>, i: nat)
    requires i < |lines|
    ensures Jdk.NonEmpty(lines[i..]) == (if lines[i] == [] then [] else [lines[i]]) + Jdk.NonEmpty(lines[i + 1..])
  {
    assert lines[i..][1..] == lines[i + 1..];
  }

  /** Counting the non-empty lines is taking the length of the list of them. */
  lemma {:induction false} CountIsNonEmpty(lines: seq<string>)
    ensures CountNonEmpty(lines) == |Jdk.NonEmpty(lines)|
  {
    if |lines| > 0 {
      var n := |lines| - 1;
      CountIsNonEmpty(lines[..n]);
      Jdk.NonEmptySnoc(lines[..n], lines[n]);
      assert lines == lines[..n] + [lines[n]];
    }
  }

  /** Every footer baseline lies in the content area below the border: the
      highest is where the text block ends. */
  lemma FooterTextBelowBorder(lines: seq<string>, j: nat)
    requires j < CountNonEmpty(lines)
    ensures Baseline(j) <= FooterBottomMargin + TextBlockHeight(CountNonEmpty(lines))
    ensures Baseline(j) <= FooterBorderY(CountNonEmpty(lines)) - FooterBorderGap
  {
  }
}
