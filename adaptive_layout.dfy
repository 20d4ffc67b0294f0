/**
 * The layout policy of the adaptive screen: which panels the content row
 * shows and whether the bottom navigation bar is present, decided from the
 * window's device type.
 */
module AdaptiveLayout {
  import opened DeviceTypes

  /** The panels the content row can show, left to right. */
  datatype Panel = ListPanel | DetailPanel | AnalyticsPanel

  /** What the screen shows: the panels of the content row and the bottom-bar flag. */
  datatype Layout = Layout(panels: seq<Panel>, showBottomBar: bool)

  /**
   * The scaffold's decisions: a bottom bar only for Compact; three panels
   * (list, detail, analytics) from Expanded up unless the window is a
   * landscape phone; otherwise two panels (list, detail) from Medium up; else
   * the list alone.
   */
  function SelectLayout<H>(d: DeviceType<H>): (l: Layout)
    ensures 1 <= |l.panels| <= 3 && l.panels[0] == ListPanel
    ensures l.showBottomBar ==> |l.panels| == 1
  {
    Layout(
      if GreaterThanOrEqual(d, ExpandedDefault()) && !IsLandscapePhone(d) then [ListPanel, DetailPanel, AnalyticsPanel]
      else if GreaterThanOrEqual(d, MediumDefault()) then [ListPanel, DetailPanel]
      else [ListPanel],
      d.Compact?)
  }

  /** The bottom navigation bar is shown exactly for the Compact variant. */
  lemma BottomBarIffCompact<H>(d: DeviceType<H>)
    ensures SelectLayout(d).showBottomBar <==> d.Compact?
    ensures SelectLayout(d).showBottomBar <==> Rank(d) == 0
  {
  }

  /** Three panels exactly from Expanded's rank up, for windows that are not landscape phones. */
  lemma ThreePanelsIff<H>(d: DeviceType<H>)
    ensures |SelectLayout(d).panels| == 3 <==> Rank(d) >= 3 && !IsLandscapePhone(d)
    ensures |SelectLayout(d).panels| == 3 ==> SelectLayout(d).panels == [ListPanel, DetailPanel, AnalyticsPanel]
  {
  }

  /** Two panels exactly when the three-panel case fails and the rank is at least Medium's. */
  lemma TwoPanelsIff<H>(d: DeviceType<H>)
    ensures |SelectLayout(d).panels| == 2 <==> !(Rank(d) >= 3 && !IsLandscapePhone(d)) && Rank(d) >= 1
    ensures |SelectLayout(d).panels| == 2 ==> SelectLayout(d).panels == [ListPanel, DetailPanel]
  {
  }

  /** A single panel exactly for rank 0, that is for Compact, and then the bottom bar goes with it. */
  lemma OnePanelIffCompact<H>(d: DeviceType<H>)
    ensures |SelectLayout(d).panels| == 1 <==> d.Compact?
    ensures |SelectLayout(d).panels| == 1 <==> SelectLayout(d).showBottomBar
  {
  }

  /** A Foldable always gets list and detail and never the bottom bar. */
  lemma FoldableGetsTwoPanels<H>(d: DeviceType<H>)
    requires d.Foldable?
    ensures SelectLayout(d) == Layout([ListPanel, DetailPanel], false)
  {
  }

  /** A landscape phone classified Expanded or above is demoted to two panels. */
  lemma LandscapePhoneDemoted<H>(d: DeviceType<H>)
    requires d.Expanded? || d.Large? || d.ExtraLarge?
    requires IsLandscapePhone(d)
    ensures SelectLayout(d) == Layout([ListPanel, DetailPanel], false)
  {
  }

  /** The placeholders' zero dimensions never matter: any Expanded or Medium value gives the same decision. */
  lemma PlaceholderDimensionsIrrelevant<H>(d: DeviceType<H>, w: int, h: int)
    ensures GreaterThanOrEqual(d, ExpandedDefault()) <==> GreaterThanOrEqual(d, DeviceType<H>.Expanded(w, h))
    ensures GreaterThanOrEqual(d, MediumDefault()) <==> GreaterThanOrEqual(d, DeviceType<H>.Medium(w, h))
  {
  }

  /** The layout for a window, as the screen computes it from the classifier's result. */
  function WindowLayout<H>(width: nat, height: nat, hinges: seq<H>, isTabletop: bool): (l: Layout)
    ensures |hinges| != 0 ==> l == Layout([ListPanel, DetailPanel], false)
    ensures l.showBottomBar <==> |l.panels| == 1
  {
    SelectLayout(GetDeviceType(width, height, hinges, isTabletop))
  }

  /**
   * The layout in terms of the window itself: a fold gives two panels; without
   * one, three panels exactly from the expanded width up unless the window is a
   * landscape phone, and the list alone with the bottom bar exactly when the
   * window is narrower than the medium band or a wide window inside it.
   */
  lemma WindowLayoutByWindow<H>(width: nat, height: nat, hinges: seq<H>, isTabletop: bool)
    ensures |hinges| != 0 ==> WindowLayout(width, height, hinges, isTabletop) == Layout([ListPanel, DetailPanel], false)
    ensures |hinges| == 0 ==>
      (|WindowLayout(width, height, hinges, isTabletop).panels| == 3 <==>
        ExpandedLowerBound <= width &&
        !(width > height && height < LandscapePhoneMaxHeight && QuotientAtLeast(Divide(width, height), 1.8)))
    ensures |hinges| == 0 ==>
      (WindowLayout(width, height, hinges, isTabletop) == Layout([ListPanel], true) <==>
        width < MediumLowerBound || (width < ExpandedLowerBound && !QuotientLess(Divide(width, height), 1.6)))
  {
    if |hinges| == 0 {
      RatioBelowIsQuotientLess(width, height);
      RatioAtLeastIsQuotientAtLeast(width, height);
    }
  }
}
