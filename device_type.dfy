/**
 * The window-size classification of the adaptive layout sample: the ranked
 * `DeviceType` sum type, its rank-only ordering, the classifier that maps a
 * window's minimum width and height and its fold posture to a device type,
 * and the landscape-phone test.
 */
module DeviceTypes {

  // ---------------------------------------------------------------------------
  // Floating-point quotients, as the classifier's two aspect-ratio tests use them
  // ---------------------------------------------------------------------------

  /**
   * The value of `w.toFloat() / h.toFloat()` for two integers, without rounding:
   * an exact real quotient when `h` is non-zero and, for a zero divisor, the
   * IEEE results `+Inf`, `-Inf` or `NaN` (0 / 0).
   */
  datatype Quotient = Finite(value: real) | PosInf | NegInf | NaN

  function Divide(w: int, h: int): Quotient {
    if h != 0 then Finite(w as real / h as real)
    else if w > 0 then PosInf
    else if w < 0 then NegInf
    else NaN
  }

  /** IEEE `q < c`: false for NaN, true for -Inf, false for +Inf. */
  predicate QuotientLess(q: Quotient, c: real) {
    match q
    case Finite(v) => v < c
    case NegInf => true
    case PosInf => false
    case NaN => false
  }

  /** IEEE `q >= c`: false for NaN, true for +Inf, false for -Inf. */
  predicate QuotientAtLeast(q: Quotient, c: real) {
    match q
    case Finite(v) => v >= c
    case PosInf => true
    case NegInf => false
    case NaN => false
  }

  /**
   * `w / h >= 1.8`, decided on integers: 1.8 is 9/5; a zero divisor gives +Inf
   * (true) only for a positive dividend, and 0 / 0 is NaN (false).
   */
  predicate RatioAtLeast(w: int, h: int)
    ensures RatioAtLeast(w, h) && h >= 0 ==> w > h
    ensures h > 0 && 2 * w >= 4 * h ==> RatioAtLeast(w, h)
  {
    if h > 0 then 5 * w >= 9 * h
    else if h < 0 then 5 * w <= 9 * h
    else w > 0
  }

  /**
   * `w / h < 1.6`, decided on integers: 1.6 is 8/5, so for a positive divisor
   * the test is `5 * w < 8 * h`, for a negative one the inequality flips, and a
   * zero divisor gives -Inf (true) only for a negative dividend.
   */
  predicate RatioBelow(w: int, h: int)
    ensures RatioBelow(w, h) ==> !RatioAtLeast(w, h)
    ensures h > 0 && 0 <= w <= h ==> RatioBelow(w, h)
    ensures h >= 0 && w >= 0 && RatioBelow(w, h) ==> h > 0
  {
    if h > 0 then 5 * w < 8 * h
    else if h < 0 then 5 * w > 8 * h
    else w < 0
  }

  /** Dividing both sides of `lhs < rhs * h` by a positive `h`. */
  lemma DivideBelow(w: int, h: int, c: real)
    requires h > 0
    ensures w as real / h as real < c <==> w as real < c * h as real
  {
    var q := w as real / h as real;
    assert q * h as real == w as real;
    if q < c {
      assert q * h as real < c * h as real;
    }
    if w as real < c * h as real {
      assert q * h as real < c * h as real;
    }
  }

  /** The integer test `RatioBelow` is exactly the float test `w / h < 1.6` on unrounded quotients. */
  lemma RatioBelowIsQuotientLess(w: int, h: int)
    ensures RatioBelow(w, h) <==> QuotientLess(Divide(w, h), 1.6)
  {
    if h > 0 {
      DivideBelow(w, h, 1.6);
    } else if h < 0 {
      DivideBelow(-w, -h, 1.6);
      assert (-w) as real / (-h) as real == w as real / h as real;
    }
  }

  /** The integer test `RatioAtLeast` is exactly the float test `w / h >= 1.8` on unrounded quotients. */
  lemma RatioAtLeastIsQuotientAtLeast(w: int, h: int)
    ensures RatioAtLeast(w, h) <==> QuotientAtLeast(Divide(w, h), 1.8)
  {
    if h > 0 {
      DivideBelow(w, h, 1.8);
    } else if h < 0 {
      DivideBelow(-w, -h, 1.8);
      assert (-w) as real / (-h) as real == w as real / h as real;
    }
  }

  // ---------------------------------------------------------------------------
  // The DeviceType sum type and its rank
  // ---------------------------------------------------------------------------

  /**
   * A window-size classification. Every variant carries the window's minimum
   * width and height in dp; `Foldable` also carries the fold posture, whose hinge
   * descriptors are of the opaque type `H`.
   */
  datatype DeviceType<H> =
    | Compact(minWidth: int, minHeight: int)
    | Medium(minWidth: int, minHeight: int)
    | Foldable(minWidth: int, minHeight: int, isTabletop: bool, hingeList: seq<H>)
    | Expanded(minWidth: int, minHeight: int)
    | Large(minWidth: int, minHeight: int)
    | ExtraLarge(minWidth: int, minHeight: int)

  /** The default rank of each variant, in declaration order. */
  function Rank<H>(d: DeviceType<H>): (r: nat)
    ensures r <= 5
  {
    match d
    case Compact(_, _) => 0
    case Medium(_, _) => 1
    case Foldable(_, _, _, _) => 2
    case Expanded(_, _) => 3
    case Large(_, _) => 4
    case ExtraLarge(_, _) => 5
  }

  /** Whether two device types are built by the same variant, whatever their fields. */
  predicate SameVariant<H>(a: DeviceType<H>, b: DeviceType<H>) {
    || (a.Compact? && b.Compact?)
    || (a.Medium? && b.Medium?)
    || (a.Foldable? && b.Foldable?)
    || (a.Expanded? && b.Expanded?)
    || (a.Large? && b.Large?)
    || (a.ExtraLarge? && b.ExtraLarge?)
  }

  // The zero-sized placeholder instances the companion object offers for comparisons.
  // Each is zero-sized and has its variant's default rank.
  function CompactDefault<H>(): (p: DeviceType<H>)
    ensures p.Compact? && p.minWidth == 0 && p.minHeight == 0
    ensures Rank(p) == 0
  {
    Compact(0, 0)
  }

  function MediumDefault<H>(): (p: DeviceType<H>)
    ensures p.Medium? && p.minWidth == 0 && p.minHeight == 0
    ensures Rank(p) == 1
  {
    Medium(0, 0)
  }

  function FoldableDefault<H>(): (p: DeviceType<H>)
    ensures p.Foldable? && p.minWidth == 0 && p.minHeight == 0 && !p.isTabletop && p.hingeList == []
    ensures Rank(p) == 2
  {
    Foldable(0, 0, false, [])
  }

  function ExpandedDefault<H>(): (p: DeviceType<H>)
    ensures p.Expanded? && p.minWidth == 0 && p.minHeight == 0
    ensures Rank(p) == 3
  {
    Expanded(0, 0)
  }

  function LargeDefault<H>(): (p: DeviceType<H>)
    ensures p.Large? && p.minWidth == 0 && p.minHeight == 0
    ensures Rank(p) == 4
  {
    Large(0, 0)
  }

  function ExtraLargeDefault<H>(): (p: DeviceType<H>)
    ensures p.ExtraLarge? && p.minWidth == 0 && p.minHeight == 0
    ensures Rank(p) == 5
  {
    ExtraLarge(0, 0)
  }

  /** The placeholders in declaration order. */
  function Defaults<H>(): seq<DeviceType<H>> {
    [CompactDefault(), MediumDefault(), FoldableDefault(), ExpandedDefault(), LargeDefault(), ExtraLargeDefault()]
  }

  /** Ranks run 0 to 5 in declaration order, so they strictly increase along it. */
  lemma RanksFollowDeclarationOrder<H>()
    ensures |Defaults<H>()| == 6
    ensures forall i :: 0 <= i < 6 ==> Rank(Defaults<H>()[i]) == i
    ensures forall i, j :: 0 <= i < j < 6 ==> Rank(Defaults<H>()[i]) < Rank(Defaults<H>()[j])
  {
  }

  /** Comparing with a placeholder tests the other operand's rank against the placeholder's default rank. */
  lemma CompareWithDefaults<H>(d: DeviceType<H>)
    ensures GreaterThanOrEqual(d, CompactDefault())
    ensures GreaterThanOrEqual(d, MediumDefault()) <==> !d.Compact?
    ensures GreaterThanOrEqual(d, FoldableDefault()) <==> Rank(d) >= 2
    ensures GreaterThanOrEqual(d, ExpandedDefault()) <==> d.Expanded? || d.Large? || d.ExtraLarge?
    ensures GreaterThanOrEqual(d, LargeDefault()) <==> d.Large? || d.ExtraLarge?
    ensures GreaterThanOrEqual(d, ExtraLargeDefault()) <==> d.ExtraLarge?
  {
  }

  /** The rank identifies the variant: equal ranks exactly when the variants agree. */
  lemma RankDeterminesVariant<H>(a: DeviceType<H>, b: DeviceType<H>)
    ensures Rank(a) == Rank(b) <==> SameVariant(a, b)
  {
  }

  // ---------------------------------------------------------------------------
  // Ordering: compareTo and the infix comparisons
  // ---------------------------------------------------------------------------

  /** `compareTo`: the rank difference; the variants' fields play no part. */
  function CompareTo<H>(a: DeviceType<H>, b: DeviceType<H>): (r: int)
    ensures -5 <= r <= 5
    ensures r == 0 <==> SameVariant(a, b)
  {
    RankDeterminesVariant(a, b);
    Rank(a) - Rank(b)
  }

  /** `smallerThan`: strictly lower in the rank order; never between values of one variant. */
  predicate SmallerThan<H>(a: DeviceType<H>, b: DeviceType<H>)
    ensures SmallerThan(a, b) ==> !SameVariant(a, b) && !a.ExtraLarge? && !b.Compact?
    ensures a.Compact? && !b.Compact? ==> SmallerThan(a, b)
  {
    CompareTo(a, b) < 0
  }

  /** `smallerThanOrEqual`: strictly lower, or of the same variant. */
  predicate SmallerThanOrEqual<H>(a: DeviceType<H>, b: DeviceType<H>)
    ensures SmallerThanOrEqual(a, b) <==> SmallerThan(a, b) || SameVariant(a, b)
  {
    CompareTo(a, b) <= 0
  }

  /** `greaterThan`: `smallerThan` with the operands swapped. */
  predicate GreaterThan<H>(a: DeviceType<H>, b: DeviceType<H>)
    ensures GreaterThan(a, b) <==> SmallerThan(b, a)
  {
    CompareTo(a, b) > 0
  }

  /** `greaterThanOrEqual`: the negation of `smallerThan`, and `smallerThanOrEqual` swapped. */
  predicate GreaterThanOrEqual<H>(a: DeviceType<H>, b: DeviceType<H>)
    ensures GreaterThanOrEqual(a, b) <==> !SmallerThan(a, b)
    ensures GreaterThanOrEqual(a, b) <==> SmallerThanOrEqual(b, a)
  {
    CompareTo(a, b) >= 0
  }

  /** Replacing either operand by another value of the same variant leaves the comparison unchanged. */
  lemma CompareIgnoresFields<H>(a: DeviceType<H>, a': DeviceType<H>, b: DeviceType<H>, b': DeviceType<H>)
    requires SameVariant(a, a') && SameVariant(b, b')
    ensures CompareTo(a, b) == CompareTo(a', b')
  {
  }

  /** Two values compare equal exactly when they are of the same variant. */
  lemma CompareZeroIffSameVariant<H>(a: DeviceType<H>, b: DeviceType<H>)
    ensures CompareTo(a, b) == 0 <==> SameVariant(a, b)
  {
    RankDeterminesVariant(a, b);
  }

  /** Equal under the ordering does not mean equal as values: two Compact windows of different sizes. */
  lemma CompareZeroForDistinctValues<H>()
    ensures DeviceType<H>.Compact(600, 300) != DeviceType<H>.Compact(320, 640)
    ensures CompareTo(DeviceType<H>.Compact(600, 300), DeviceType<H>.Compact(320, 640)) == 0
  {
  }

  /** The comparison is antisymmetric in sign and zero on the diagonal. */
  lemma CompareAntisymmetric<H>(a: DeviceType<H>, b: DeviceType<H>)
    ensures CompareTo(a, b) == -CompareTo(b, a)
    ensures CompareTo(a, a) == 0
  {
  }

  /** The four infix comparisons agree with each other as the rank order demands. */
  lemma InfixComparisonsAgree<H>(a: DeviceType<H>, b: DeviceType<H>)
    ensures GreaterThan(a, b) <==> SmallerThan(b, a)
    ensures GreaterThanOrEqual(a, b) <==> SmallerThanOrEqual(b, a)
    ensures GreaterThanOrEqual(a, b) <==> !SmallerThan(a, b)
    ensures SmallerThanOrEqual(a, b) <==> !GreaterThan(a, b)
    ensures GreaterThan(a, b) <==> Rank(a) > Rank(b)
    ensures SmallerThan(a, b) <==> Rank(a) < Rank(b)
  {
  }

  /** Exactly one of smaller, greater and same-variant holds for any two values. */
  lemma Trichotomy<H>(a: DeviceType<H>, b: DeviceType<H>)
    ensures SmallerThan(a, b) || GreaterThan(a, b) || SameVariant(a, b)
    ensures !(SmallerThan(a, b) && GreaterThan(a, b))
    ensures SameVariant(a, b) ==> !SmallerThan(a, b) && !GreaterThan(a, b)
  {
    RankDeterminesVariant(a, b);
  }

  ghost predicate IsTotalPreorder<T(!new)>(le: (T, T) -> bool) {
    && (forall x :: le(x, x))
    && (forall x, y, z :: le(x, y) && le(y, z) ==> le(x, z))
    && (forall x, y :: le(x, y) || le(y, x))
  }

  /** `smallerThanOrEqual` is a total preorder on device types. */
  lemma SmallerThanOrEqualIsTotalPreorder<H(!new)>()
    ensures IsTotalPreorder(SmallerThanOrEqual<H>)
  {
  }

  /** It is not a partial order: distinct values of one variant are each below the other. */
  lemma SmallerThanOrEqualNotAntisymmetric<H>()
    ensures exists a: DeviceType<H>, b: DeviceType<H> ::
      a != b && SmallerThanOrEqual(a, b) && SmallerThanOrEqual(b, a)
  {
    var a, b := DeviceType<H>.Expanded(900, 400), DeviceType<H>.Expanded(1000, 800);
    assert a != b && SmallerThanOrEqual(a, b) && SmallerThanOrEqual(b, a);
  }

  // ---------------------------------------------------------------------------
  // The classifier
  // ---------------------------------------------------------------------------

  // Width breakpoints of the window size classes, in dp (lower bounds, inclusive).
  const MediumLowerBound: nat := 600
  const ExpandedLowerBound: nat := 840
  const LargeLowerBound: nat := 1200
  const ExtraLargeLowerBound: nat := 1600

  /**
   * `getDeviceType`: a non-empty hinge list makes the window Foldable; otherwise
   * the first width breakpoint it reaches, from the largest down, picks the
   * variant, and in the medium band a window at least 1.6 times as wide as it is
   * tall falls back to Compact.
   */
  function GetDeviceType<H>(width: nat, height: nat, hinges: seq<H>, isTabletop: bool): (d: DeviceType<H>)
    ensures d.minWidth == width && d.minHeight == height
  {
    if |hinges| != 0 then Foldable(width, height, isTabletop, hinges)
    else if width >= ExtraLargeLowerBound then ExtraLarge(width, height)
    else if width >= LargeLowerBound then Large(width, height)
    else if width >= ExpandedLowerBound then Expanded(width, height)
    else if width >= MediumLowerBound then
      (if RatioBelow(width, height) then Medium(width, height) else Compact(width, height))
    else Compact(width, height)
  }

  /** The hinge list decides Foldable outright: a non-empty one wins whatever the size, and forwards the posture unchanged. */
  lemma FoldableIffHinges<H>(width: nat, height: nat, hinges: seq<H>, isTabletop: bool)
    ensures GetDeviceType(width, height, hinges, isTabletop).Foldable? <==> |hinges| != 0
    ensures |hinges| != 0 ==> GetDeviceType(width, height, hinges, isTabletop) == Foldable(width, height, isTabletop, hinges)
  {
  }

  /** Without hinges the three widest variants are exactly the three widest width bands. */
  lemma WideBands<H>(width: nat, height: nat, isTabletop: bool)
    ensures GetDeviceType<H>(width, height, [], isTabletop).ExtraLarge? <==> ExtraLargeLowerBound <= width
    ensures GetDeviceType<H>(width, height, [], isTabletop).Large? <==> LargeLowerBound <= width < ExtraLargeLowerBound
    ensures GetDeviceType<H>(width, height, [], isTabletop).Expanded? <==> ExpandedLowerBound <= width < LargeLowerBound
  {
  }

  /**
   * Without hinges a window is Medium exactly when its width is in the medium
   * band and its aspect ratio is below 1.6; it is Compact exactly when it is
   * narrower than the medium band or is a wide window inside it.
   */
  lemma MediumAndCompactBands<H>(width: nat, height: nat, isTabletop: bool)
    ensures GetDeviceType<H>(width, height, [], isTabletop).Medium? <==>
      MediumLowerBound <= width < ExpandedLowerBound && QuotientLess(Divide(width, height), 1.6)
    ensures GetDeviceType<H>(width, height, [], isTabletop).Compact? <==>
      width < MediumLowerBound || (width < ExpandedLowerBound && !QuotientLess(Divide(width, height), 1.6))
  {
    RatioBelowIsQuotientLess(width, height);
  }

  /** Every window narrower than the medium band is Compact, whatever its height. */
  lemma NarrowIsCompact<H>(width: nat, height: nat, isTabletop: bool)
    requires width < MediumLowerBound
    ensures GetDeviceType<H>(width, height, [], isTabletop) == Compact(width, height)
  {
  }

  /** A zero height makes the medium-band ratio +Inf, so such a window is Compact. */
  lemma ZeroHeightInMediumBandIsCompact<H>(width: nat, isTabletop: bool)
    requires MediumLowerBound <= width < ExpandedLowerBound
    ensures Divide(width, 0) == PosInf
    ensures GetDeviceType<H>(width, 0, [], isTabletop) == Compact(width, 0)
  {
  }

  /** Without hinges the result is never Foldable and carries its own variant's default rank. */
  lemma UnhingedRank<H>(width: nat, height: nat, isTabletop: bool)
    ensures !GetDeviceType<H>(width, height, [], isTabletop).Foldable?
    ensures Rank(GetDeviceType<H>(width, height, [], isTabletop)) != 2
  {
  }

  /** Examples at the medium breakpoint: 600x1000 is Medium, 600x300 is Compact. */
  lemma MediumBoundaryExamples<H>()
    ensures GetDeviceType<H>(600, 1000, [], false) == Medium(600, 1000)
    ensures GetDeviceType<H>(600, 300, [], false) == Compact(600, 300)
  {
    RatioBelowIsQuotientLess(600, 1000);
    RatioBelowIsQuotientLess(600, 300);
  }

  /** A fold at 1600x900 is Foldable though its width alone would make it ExtraLarge. */
  lemma FoldableOverridesWidthExample<H>(hinge: H)
    ensures GetDeviceType<H>(1600, 900, [], true).ExtraLarge?
    ensures GetDeviceType(1600, 900, [hinge], true) == Foldable(1600, 900, true, [hinge])
  {
  }

  /** Growing the height never lowers the rank of an unhinged window: only the medium-band ratio test reads it. */
  lemma RankMonotoneInHeight<H>(width: nat, h1: nat, h2: nat, isTabletop: bool)
    requires h1 <= h2
    ensures Rank(GetDeviceType<H>(width, h1, [], isTabletop)) <= Rank(GetDeviceType<H>(width, h2, [], isTabletop))
  {
  }

  /**
   * Growing the width can lower the rank only through the medium-band
   * fallback: the narrower window is Medium and the wider one is a wide
   * window still inside the medium band, hence Compact.
   */
  lemma RankDropsOnlyInMediumBand<H>(w1: nat, w2: nat, height: nat, isTabletop: bool)
    requires w1 <= w2
    requires Rank(GetDeviceType<H>(w2, height, [], isTabletop)) < Rank(GetDeviceType<H>(w1, height, [], isTabletop))
    ensures GetDeviceType<H>(w1, height, [], isTabletop).Medium?
    ensures GetDeviceType<H>(w2, height, [], isTabletop).Compact?
    ensures MediumLowerBound <= w1 < w2 < ExpandedLowerBound
  {
  }

  /** The rank is not monotone in width: at height 400, width 600 is Medium but width 640 is Compact. */
  lemma RankNotMonotoneInWidth<H>()
    ensures GetDeviceType<H>(600, 400, [], false).Medium?
    ensures GetDeviceType<H>(640, 400, [], false).Compact?
  {
  }

  // ---------------------------------------------------------------------------
  // isLandscapePhone
  // ---------------------------------------------------------------------------

  /** Heights below this many dp count as a phone's in the landscape-phone test. */
  const LandscapePhoneMaxHeight: int := 500

  /** `isLandscapePhone`: wider than tall, shorter than 500 dp, and at least 1.8 times as wide as tall. */
  predicate IsLandscapePhone<H>(d: DeviceType<H>)
    ensures IsLandscapePhone(d) <==>
      d.minWidth > d.minHeight && d.minHeight < LandscapePhoneMaxHeight && QuotientAtLeast(Divide(d.minWidth, d.minHeight), 1.8)
  {
    RatioAtLeastIsQuotientAtLeast(d.minWidth, d.minHeight);
    d.minWidth > d.minHeight && d.minHeight < LandscapePhoneMaxHeight && RatioAtLeast(d.minWidth, d.minHeight)
  }

  /** 900x400 (ratio 2.25) is a landscape phone; 900x700 (ratio about 1.29) is not. */
  lemma LandscapePhoneExamples<H>()
    ensures IsLandscapePhone(DeviceType<H>.Expanded(900, 400))
    ensures !IsLandscapePhone(DeviceType<H>.Expanded(900, 700))
  {
    RatioAtLeastIsQuotientAtLeast(900, 400);
    RatioAtLeastIsQuotientAtLeast(900, 700);
  }

  /** Only the dimensions matter: the variant and the posture do not enter the test. */
  lemma LandscapePhoneIgnoresVariant<H>(a: DeviceType<H>, b: DeviceType<H>)
    requires a.minWidth == b.minWidth && a.minHeight == b.minHeight
    ensures IsLandscapePhone(a) <==> IsLandscapePhone(b)
  {
  }

  /** A landscape phone has a positive width and a height that is not negative (a zero height reads as +Inf). */
  lemma LandscapePhoneDimensions<H>(d: DeviceType<H>)
    requires IsLandscapePhone(d)
    ensures 0 <= d.minHeight < d.minWidth
  {
  }

  /** The classifier never calls a landscape phone Medium: its ratio of at least 1.8 fails the medium band's test. */
  lemma LandscapePhoneNeverMedium<H>(width: nat, height: nat, hinges: seq<H>, isTabletop: bool)
    requires IsLandscapePhone(GetDeviceType(width, height, hinges, isTabletop))
    ensures !GetDeviceType(width, height, hinges, isTabletop).Medium?
  {
  }
}
