# Adaptive layout: device-type classification and layout policy

This project models the logic of the adaptive-layout sample: the window-size classifier
that turns a window's minimum width and height (in dp) and its fold posture into a ranked
`DeviceType`, the rank-only ordering of device types with its four infix comparisons, the
`isLandscapePhone` test, and the rule by which the adaptive screen picks one, two or three
panels and decides whether to show the bottom navigation bar.

- `device_type.dfy`, module `DeviceTypes`: the `DeviceType<H>` datatype (six variants, each with
  `minWidth` and `minHeight`; `Foldable` also has `isTabletop` and a hinge list of the opaque type
  `H`), `Rank`, `CompareTo` and the infix comparisons, the zero-sized companion placeholders,
  `GetDeviceType`, and `IsLandscapePhone`.
- `adaptive_layout.dfy`, module `AdaptiveLayout`: `SelectLayout`, which gives the panels of the content
  row (list; list and detail; list, detail and analytics) and the bottom-bar flag for a device type,
  and `WindowLayout`, which composes it with the classifier.

The two aspect-ratio tests are float divisions in the source: `width / height < 1.6f` and
`minWidth / minHeight >= 1.8f`. Here they are decided on integers by cross-multiplication
(`RatioBelow`, `RatioAtLeast`), taking the sign of the divisor into account. They are proved
equal to a reference `Divide`, which gives the exact real quotient, or `+Inf`, `-Inf` or `NaN`
for a zero divisor, as IEEE division does. So a zero height makes a medium-band window
Compact (`+Inf < 1.6` is false). A window of positive width and zero height counts as a
landscape phone (`+Inf >= 1.8`). A 0×0 value does not (it fails `minWidth > minHeight`, and
`NaN >= 1.8` is false as well).

The four width breakpoints are constants of the window-size-class library, which is not
part of this model. They are declared as named constants with that library's values: 600,
840, 1200 and 1600 dp.

## Model

| member | source | states |
|---|---|---|
| `DeviceTypes.RatioAtLeast` | composeApp/src/commonMain/kotlin/com/eduside/adaptive_layout_kmp/utils/DeviceType.kt:100 | the integer form of `w / h >= 1.8f`: for a non-negative height it implies the window is wider than tall, and a positive height with width at least twice it passes |
| `DeviceTypes.RatioBelow` | composeApp/src/commonMain/kotlin/com/eduside/adaptive_layout_kmp/utils/DeviceType.kt:68-85 | the integer form of `w / h < 1.6f`: it excludes `RatioAtLeast`, holds whenever a positive height is at least the non-negative width, and never holds for a zero height with a non-negative width (+Inf or NaN) |
| `DeviceTypes.RatioBelowIsQuotientLess` | composeApp/src/commonMain/kotlin/com/eduside/adaptive_layout_kmp/utils/DeviceType.kt:68-85 | the integer test `RatioBelow(w, h)` holds exactly when the IEEE quotient `w / h` is below 1.6, for every sign of `h` and for a zero `h` (±Inf, NaN); the division step for a positive divisor is the helper `DivideBelow` |
| `DeviceTypes.RatioAtLeastIsQuotientAtLeast` | composeApp/src/commonMain/kotlin/com/eduside/adaptive_layout_kmp/utils/DeviceType.kt:100 | the integer test `RatioAtLeast(w, h)` holds exactly when the IEEE quotient `w / h` is at least 1.8, including the ±Inf and NaN cases |
| `DeviceTypes.Rank` | composeApp/src/commonMain/kotlin/com/eduside/adaptive_layout_kmp/utils/DeviceType.kt:14-50 | every variant's default rank lies in 0..5 |
| `DeviceTypes.RanksFollowDeclarationOrder` | composeApp/src/commonMain/kotlin/com/eduside/adaptive_layout_kmp/utils/DeviceType.kt:14-58 | the placeholders in declaration order (Compact, Medium, Foldable, Expanded, Large, ExtraLarge) have ranks 0 to 5, which strictly increase |
| `DeviceTypes.CompactDefault` | composeApp/src/commonMain/kotlin/com/eduside/adaptive_layout_kmp/utils/DeviceType.kt:53 | the companion placeholder `DeviceType.Compact`: a zero-sized Compact value with rank 0 |
| `DeviceTypes.MediumDefault` | composeApp/src/commonMain/kotlin/com/eduside/adaptive_layout_kmp/utils/DeviceType.kt:54 | the companion placeholder `DeviceType.Medium`: a zero-sized Medium value with rank 1 |
| `DeviceTypes.FoldableDefault` | composeApp/src/commonMain/kotlin/com/eduside/adaptive_layout_kmp/utils/DeviceType.kt:55 | the companion placeholder `DeviceType.Foldable`: a zero-sized Foldable value, not tabletop, with an empty hinge list with rank 2 |
| `DeviceTypes.ExpandedDefault` | composeApp/src/commonMain/kotlin/com/eduside/adaptive_layout_kmp/utils/DeviceType.kt:56 | the companion placeholder `DeviceType.Expanded`: a zero-sized Expanded value with rank 3 |
| `DeviceTypes.LargeDefault` | composeApp/src/commonMain/kotlin/com/eduside/adaptive_layout_kmp/utils/DeviceType.kt:57 | the companion placeholder `DeviceType.Large`: a zero-sized Large value with rank 4 |
| `DeviceTypes.ExtraLargeDefault` | composeApp/src/commonMain/kotlin/com/eduside/adaptive_layout_kmp/utils/DeviceType.kt:58 | the companion placeholder `DeviceType.ExtraLarge`: a zero-sized ExtraLarge value with rank 5 |
| `DeviceTypes.CompareWithDefaults` | composeApp/src/commonMain/kotlin/com/eduside/adaptive_layout_kmp/utils/DeviceType.kt:52-59 | comparing with a placeholder is a rank threshold: everything is at least Compact, at least Medium exactly when not Compact, at least Expanded exactly for Expanded, Large and ExtraLarge, and so on |
| `DeviceTypes.RankDeterminesVariant` | composeApp/src/commonMain/kotlin/com/eduside/adaptive_layout_kmp/utils/DeviceType.kt:14-50 | two device types have equal rank if and only if they are of the same variant |
| `DeviceTypes.CompareTo` | composeApp/src/commonMain/kotlin/com/eduside/adaptive_layout_kmp/utils/DeviceType.kt:12 | `compareTo` lies in -5..5 and is zero if and only if the operands are of the same variant |
| `DeviceTypes.CompareIgnoresFields` | composeApp/src/commonMain/kotlin/com/eduside/adaptive_layout_kmp/utils/DeviceType.kt:12 | replacing either operand by any other value of the same variant leaves `compareTo` unchanged: widths, heights and hinges play no part |
| `DeviceTypes.CompareZeroIffSameVariant` | composeApp/src/commonMain/kotlin/com/eduside/adaptive_layout_kmp/utils/DeviceType.kt:12 | `compareTo` is zero if and only if both operands are of the same variant |
| `DeviceTypes.CompareZeroForDistinctValues` | composeApp/src/commonMain/kotlin/com/eduside/adaptive_layout_kmp/utils/DeviceType.kt:12-18 | two Compact values of different sizes are unequal as data values yet compare as zero |
| `DeviceTypes.CompareAntisymmetric` | composeApp/src/commonMain/kotlin/com/eduside/adaptive_layout_kmp/utils/DeviceType.kt:12 | swapping the operands negates `compareTo`; a value compares zero with itself |
| `DeviceTypes.SmallerThan` | composeApp/src/commonMain/kotlin/com/eduside/adaptive_layout_kmp/utils/DeviceType.kt:94 | `smallerThan` never holds within one variant, never with ExtraLarge on the left or Compact on the right, and always holds from Compact to any other variant |
| `DeviceTypes.SmallerThanOrEqual` | composeApp/src/commonMain/kotlin/com/eduside/adaptive_layout_kmp/utils/DeviceType.kt:95 | `smallerThanOrEqual` is `smallerThan` or same-variant |
| `DeviceTypes.GreaterThan` | composeApp/src/commonMain/kotlin/com/eduside/adaptive_layout_kmp/utils/DeviceType.kt:92 | `greaterThan` is `smallerThan` with the operands swapped |
| `DeviceTypes.GreaterThanOrEqual` | composeApp/src/commonMain/kotlin/com/eduside/adaptive_layout_kmp/utils/DeviceType.kt:93 | `greaterThanOrEqual` is the negation of `smallerThan`, and `smallerThanOrEqual` with the operands swapped |
| `DeviceTypes.InfixComparisonsAgree` | composeApp/src/commonMain/kotlin/com/eduside/adaptive_layout_kmp/utils/DeviceType.kt:92-95 | `greaterThan` is `smallerThan` reversed, `greaterThanOrEqual` is the negation of `smallerThan` and the reverse of `smallerThanOrEqual`, and the strict ones are the strict rank order |
| `DeviceTypes.Trichotomy` | composeApp/src/commonMain/kotlin/com/eduside/adaptive_layout_kmp/utils/DeviceType.kt:12 | exactly one of smaller, greater and same-variant holds for any two device types |
| `DeviceTypes.SmallerThanOrEqualIsTotalPreorder` | composeApp/src/commonMain/kotlin/com/eduside/adaptive_layout_kmp/utils/DeviceType.kt:95 | `smallerThanOrEqual` is reflexive, transitive and total |
| `DeviceTypes.SmallerThanOrEqualNotAntisymmetric` | composeApp/src/commonMain/kotlin/com/eduside/adaptive_layout_kmp/utils/DeviceType.kt:95 | there are two distinct device types each `smallerThanOrEqual` the other, so the order is a preorder and not a partial order |
| `DeviceTypes.GetDeviceType` | composeApp/src/commonMain/kotlin/com/eduside/adaptive_layout_kmp/utils/DeviceType.kt:62-90 | every result carries the input width and height as `minWidth` and `minHeight` |
| `DeviceTypes.FoldableIffHinges` | composeApp/src/commonMain/kotlin/com/eduside/adaptive_layout_kmp/utils/DeviceType.kt:70-76 | the result is Foldable if and only if the hinge list is non-empty; it is then `Foldable(width, height, isTabletop, hinges)` whatever the width |
| `DeviceTypes.WideBands` | composeApp/src/commonMain/kotlin/com/eduside/adaptive_layout_kmp/utils/DeviceType.kt:80-82 | without hinges: ExtraLarge if and only if width is at least the extra-large bound; Large if and only if width lies in [large, extra-large); Expanded if and only if it lies in [expanded, large) |
| `DeviceTypes.MediumAndCompactBands` | composeApp/src/commonMain/kotlin/com/eduside/adaptive_layout_kmp/utils/DeviceType.kt:83-88 | without hinges: Medium if and only if width lies in [medium, expanded) and the IEEE ratio width/height is below 1.6; Compact if and only if width is below the medium bound, or lies in the medium band with ratio not below 1.6 |
| `DeviceTypes.NarrowIsCompact` | composeApp/src/commonMain/kotlin/com/eduside/adaptive_layout_kmp/utils/DeviceType.kt:88 | without hinges, any width below the medium bound gives `Compact(width, height)` whatever the height |
| `DeviceTypes.ZeroHeightInMediumBandIsCompact` | composeApp/src/commonMain/kotlin/com/eduside/adaptive_layout_kmp/utils/DeviceType.kt:68-86 | a zero height makes the quotient +Inf, and a medium-band width then gives Compact |
| `DeviceTypes.UnhingedRank` | composeApp/src/commonMain/kotlin/com/eduside/adaptive_layout_kmp/utils/DeviceType.kt:79-89 | with an empty hinge list the result is never Foldable, so its rank is never 2 |
| `DeviceTypes.MediumBoundaryExamples` | composeApp/src/commonMain/kotlin/com/eduside/adaptive_layout_kmp/utils/DeviceType.kt:83-87 | 600×1000 gives Medium and 600×300 gives Compact |
| `DeviceTypes.FoldableOverridesWidthExample` | composeApp/src/commonMain/kotlin/com/eduside/adaptive_layout_kmp/utils/DeviceType.kt:70-80 | 1600×900 is ExtraLarge without hinges and `Foldable(1600, 900, true, [h])` with one hinge |
| `DeviceTypes.RankMonotoneInHeight` | composeApp/src/commonMain/kotlin/com/eduside/adaptive_layout_kmp/utils/DeviceType.kt:79-89 | without hinges, a taller window of the same width never gets a lower rank |
| `DeviceTypes.RankDropsOnlyInMediumBand` | composeApp/src/commonMain/kotlin/com/eduside/adaptive_layout_kmp/utils/DeviceType.kt:79-89 | without hinges, a wider window gets a lower rank only when both widths are in the medium band, the narrower is Medium and the wider is Compact |
| `DeviceTypes.RankNotMonotoneInWidth` | composeApp/src/commonMain/kotlin/com/eduside/adaptive_layout_kmp/utils/DeviceType.kt:83-87 | at height 400, width 600 gives Medium but width 640 gives Compact |
| `DeviceTypes.IsLandscapePhone` | composeApp/src/commonMain/kotlin/com/eduside/adaptive_layout_kmp/utils/DeviceType.kt:97-100 | a value is a landscape phone if and only if `minWidth > minHeight`, `minHeight < 500` and the IEEE quotient `minWidth / minHeight` is at least 1.8 |
| `DeviceTypes.LandscapePhoneExamples` | composeApp/src/commonMain/kotlin/com/eduside/adaptive_layout_kmp/utils/DeviceType.kt:97-100 | 900×400 is a landscape phone; 900×700 is not |
| `DeviceTypes.LandscapePhoneIgnoresVariant` | composeApp/src/commonMain/kotlin/com/eduside/adaptive_layout_kmp/utils/DeviceType.kt:97-100 | the test reads only `minWidth` and `minHeight`: two values with the same dimensions agree whatever their variants |
| `DeviceTypes.LandscapePhoneDimensions` | composeApp/src/commonMain/kotlin/com/eduside/adaptive_layout_kmp/utils/DeviceType.kt:97-100 | a landscape phone has `0 <= minHeight < minWidth`; a negative height never passes the ratio test |
| `DeviceTypes.LandscapePhoneNeverMedium` | composeApp/src/commonMain/kotlin/com/eduside/adaptive_layout_kmp/utils/DeviceType.kt:83-100 | the classifier never returns Medium for a window that is a landscape phone |
| `AdaptiveLayout.SelectLayout` | composeApp/src/commonMain/kotlin/com/eduside/adaptive_layout_kmp/App.kt:70-101 | the content row shows one to three panels, always starting with the list, and the bottom bar appears only beside a single panel |
| `AdaptiveLayout.BottomBarIffCompact` | composeApp/src/commonMain/kotlin/com/eduside/adaptive_layout_kmp/App.kt:72-74 | the bottom navigation bar is shown if and only if the device type is Compact, that is, has rank 0 |
| `AdaptiveLayout.ThreePanelsIff` | composeApp/src/commonMain/kotlin/com/eduside/adaptive_layout_kmp/App.kt:84-89 | three panels (list, detail, analytics) if and only if the rank is at least Expanded's and the device is not a landscape phone |
| `AdaptiveLayout.TwoPanelsIff` | composeApp/src/commonMain/kotlin/com/eduside/adaptive_layout_kmp/App.kt:92-95 | two panels (list, detail) if and only if the three-panel case fails and the rank is at least Medium's |
| `AdaptiveLayout.OnePanelIffCompact` | composeApp/src/commonMain/kotlin/com/eduside/adaptive_layout_kmp/App.kt:98-100 | the list alone if and only if the device is Compact, and exactly when the bottom bar is shown |
| `AdaptiveLayout.FoldableGetsTwoPanels` | composeApp/src/commonMain/kotlin/com/eduside/adaptive_layout_kmp/App.kt:72-95 | a Foldable always gets list and detail, and never the bottom bar |
| `AdaptiveLayout.LandscapePhoneDemoted` | composeApp/src/commonMain/kotlin/com/eduside/adaptive_layout_kmp/App.kt:84-95 | an Expanded, Large or ExtraLarge landscape phone gets two panels and no bottom bar |
| `AdaptiveLayout.PlaceholderDimensionsIrrelevant` | composeApp/src/commonMain/kotlin/com/eduside/adaptive_layout_kmp/App.kt:84-92 | comparing with the zero-sized `Expanded` and `Medium` placeholders gives the same answer as comparing with any value of those variants |
| `AdaptiveLayout.WindowLayout` | composeApp/src/commonMain/kotlin/com/eduside/adaptive_layout_kmp/App.kt:66-67 | the layout for a window: a fold gives list and detail without the bottom bar, and the bar is shown exactly beside a single panel |
| `AdaptiveLayout.WindowLayoutByWindow` | composeApp/src/commonMain/kotlin/com/eduside/adaptive_layout_kmp/App.kt:66-101 | for a window: a fold gives two panels without a bottom bar; without hinges, three panels if and only if width reaches the expanded bound and the window is not a landscape phone, and the list alone with the bottom bar if and only if width is below the medium bound or lies in the medium band with the IEEE ratio not below 1.6; the landscape-phone and ratio conditions are stated on the IEEE quotient |

## Left out

- Rendering: `App()` and its `showContent` toggle, the greeting, `BottomNavigationBar`, the three panel composables, their modifiers, weights, colours and resources. These are UI toolkit code. Only which panels are shown, and whether the bar is shown, is modelled.
- `currentWindowAdaptiveInfo()` and the `WindowAdaptiveInfo` and `WindowSizeClass` objects are library calls. The classifier instead takes the minimum width and height, the hinge list and the tabletop flag as parameters.
- The internals of `HingeInfo`: a hinge is an opaque type parameter, and only the emptiness of the list matters.
- Float rounding: the quotients and the literals 1.6f and 1.8f are treated as exact rationals. For window sizes in dp this gives the same comparisons as single-precision floats.
- A rank passed explicitly through a variant's constructor is not modelled: the rank is a function of the variant. The classifier and the placeholders always use the default ranks.
- Kotlin's 32-bit `Int` is not modelled: widths and heights are unbounded integers. Nothing in the modelled code can overflow for window sizes in dp, and rank differences lie in -5..5.
