/** The layout and page constants of the chart, in points, and the colours
    decoded from hex text. */
module Style {
  import opened Wrappers
  import Colors

  const PagePadding: real := 20.0
  const HeaderFontSize: real := 28.0
  const HeaderMarginBottom: real := 20.0
  const TotalNormFontSize: real := 24.0
  const TotalNormMarginBottom: real := 30.0
  const NodeContainerPaddingVertical: real := 15.0
  const NodeContainerPaddingHorizontal: real := 8.0
  const NodePadding: real := 10.0
  const NodeBorderRadius: real := 13.0
  const NodeWidth: real := 173.0
  const NodeHeight: real := 180.0
  const NodeBorderLeftWidth: real := 8.0
  const NodeTextFontSize: real := 17.0
  /** `1.3f`, taken as the exact decimal. */
  const NodeTextLineHeight: real := 1.3
  const NodeNormFontSize: real := 17.0
  const NodeNormMarginTop: real := 6.0
  const HorizontalLineHeight: real := 1.0
  const HorizontalLineTop: real := 12.0
  const VerticalLineWidth: real := 1.0
  const ChildrenRowMarginTop: real := 30.0
  const FooterMarginTop: real := 40.0
  /** The footer is aligned with the title, so it has no horizontal padding. */
  const FooterPaddingHorizontal: real := 0.0
  const FooterPaddingVertical: real := 20.0
  const FooterTextFontSize: real := 22.0
  const FooterImageHeight: real := 150.0

  /** A node box plus the horizontal padding of its container. */
  const NodeWidthEffective: real := NodeWidth + NodeContainerPaddingHorizontal * 2.0
  /** A node box plus the vertical padding of its container and the gap to the next row. */
  const NodeHeightEffective: real := NodeHeight + NodeContainerPaddingVertical * 2.0 + ChildrenRowMarginTop

  const MinPageWidth: real := 1190.0
  const MinPageHeight: real := 842.0
  const MaxPageWidth: real := 20000.0
  const MaxPageHeight: real := 20000.0
  const PageWidthExtra: real := 500.0
  const PageHeightExtra: real := 500.0

  const NodeBackground := Colors.Rgb(0xF6, 0xF8, 0xFF)
  const LineColor := Colors.Rgb(0x9B, 0x99, 0x99)
  const FooterTextColor := Colors.Rgb(0x33, 0x33, 0x33)

  /** The derived sizes every layout computation uses: 189 by 240 points per
      node slot, wider and taller than the box it holds. */
  lemma EffectiveSizes()
    ensures NodeWidthEffective == 189.0 && NodeHeightEffective == 240.0
    ensures NodeWidthEffective > NodeWidth && NodeHeightEffective > NodeHeight
  {
  }

  /** Every page bound is positive and the minimum never exceeds the maximum. */
  lemma PageBoundsOrdered()
    ensures 0.0 < MinPageWidth <= MaxPageWidth && 0.0 < MinPageHeight <= MaxPageHeight
  {
  }

  /** Every size, margin and font size of the style is positive, and so is
      every padding except the footer's horizontal one, which is zero. */
  lemma GeometryPositive()
    ensures && PagePadding > 0.0 && HeaderFontSize > 0.0 && HeaderMarginBottom > 0.0
            && TotalNormFontSize > 0.0 && TotalNormMarginBottom > 0.0
            && NodeContainerPaddingVertical > 0.0 && NodeContainerPaddingHorizontal > 0.0
            && NodePadding > 0.0 && NodeBorderRadius > 0.0 && NodeBorderLeftWidth > 0.0
            && NodeWidth > 0.0 && NodeHeight > 0.0
            && HorizontalLineHeight > 0.0 && HorizontalLineTop > 0.0 && VerticalLineWidth > 0.0
            && FooterPaddingVertical > 0.0
            && NodeTextFontSize > 0.0 && NodeTextLineHeight > 0.0
            && NodeNormFontSize > 0.0 && NodeNormMarginTop > 0.0 && ChildrenRowMarginTop > 0.0
            && FooterMarginTop > 0.0 && FooterTextFontSize > 0.0 && FooterImageHeight > 0.0
            && PageWidthExtra > 0.0 && PageHeightExtra > 0.0
    ensures FooterPaddingHorizontal == 0.0
  {
  }

  /** The style colours are the decodings of their hex text. */
  lemma StyleColorsDecode()
    ensures Colors.HexToColor("#F6F8FF") == Success(NodeBackground)
    ensures Colors.HexToColor("#9b9999") == Success(LineColor)
    ensures Colors.HexToColor("#333333") == Success(FooterTextColor)
  {
    Colors.DecodeLiteral("F6F8FF", 0xF6, 0xF8, 0xFF);
    assert "#F6F8FF" == "#" + "F6F8FF";
    Colors.DecodeLiteral("9b9999", 0x9B, 0x99, 0x99);
    assert "#9b9999" == "#" + "9b9999";
    Colors.DecodeLiteral("333333", 0x33, 0x33, 0x33);
    assert "#333333" == "#" + "333333";
  }
}
