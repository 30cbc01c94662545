# SwiftUI side menu — a verified model

A Dafny model of the `SideMenu` view modifier of the SwiftUI side-menu package.
The modifier shows a menu pane that slides in from the leading edge. One boolean
binding, `isShowing`, says whether the menu shows. Two gesture handlers change it:

- the end of a drag gesture opens or closes the menu;
- a tap closes it, but only in one configuration.

A layout rule places the host content and the menu pane from `isShowing` and
the container size.

- `side_menu.dfy`, module `SideMenu`. It holds the configuration
  (`disableDragGesture` as `Option<bool>`), the drag-event values, the two state
  rules as pure functions (`AfterDragEnd`, `AfterTap`) and the layout function
  (`ComputeLayout`). It also holds the class `SideMenuModifier`. Its mutable
  `isShowing` field stands for the binding, and its methods `DragEnded` and
  `Tap` are the two gesture handlers.
- `side_menu_properties.dfy`, module `SideMenuProperties`. It holds lemmas about
  single events and about any sequence of gestures delivered in order
  (`Run`). `Step` and `Run` model gestures arriving one after another on the
  UI event loop, each finished before the next begins. It also holds example
  scenarios: concrete drags and taps with their expected results.

`CGFloat` values are modelled as `real`. The code only compares them and halves
widths, so no rounding behaviour matters.

The drag rule tests `event.location.x`, where the drag ended, not where it began.

## Model

| member | source | states |
|---|---|---|
| `SideMenu.AfterDragEnd` | Sources/SwiftUISideMenu/SwiftUISideMenu.swift:16-24 | the state changes only if drag is enabled and the drag is an edge swipe; such a swipe sets the state to whether the swipe went right |
| `SideMenu.AfterTap` | Sources/SwiftUISideMenu/SwiftUISideMenu.swift:38-42 | a tap never opens the menu, and it changes the state exactly when the menu shows and `disableDragGesture` is true |
| `SideMenu.ComputeLayout` | Sources/SwiftUISideMenu/SwiftUISideMenu.swift:28-35 | the menu is half the container wide and its trailing edge meets the content's leading edge; offsets are (w/2, 0) when showing and (0, -w/2) when hidden; content is disabled exactly when showing; the content frame is the container size |
| `SideMenu.DragEnabled` | Sources/SwiftUISideMenu/SwiftUISideMenu.swift:17 | drag handling is on exactly when `disableDragGesture` is not `true` (unset or `false`) |
| `SideMenu.TapCloseEnabled` | Sources/SwiftUISideMenu/SwiftUISideMenu.swift:39 | tap-to-close is on exactly when `disableDragGesture` is set and `true` |
| `SideMenu.IsEdgeSwipe` | Sources/SwiftUISideMenu/SwiftUISideMenu.swift:18 | a drag qualifies exactly when it ends at x < 200, its vertical translation lies strictly between -50 and 50, and its horizontal translation is below -50 or above 50 |
| `SideMenu.Abs` | Sources/SwiftUISideMenu/SwiftUISideMenu.swift:18 | `abs` on a coordinate is non-negative and is the value or its negation |
| `SideMenu.SideMenuModifier.constructor` | Sources/SwiftUISideMenu/SwiftUISideMenu.swift:8-13 | the modifier starts with the given binding value and configuration; `disableDragGesture` defaults to unset (`None`) |
| `SideMenu.SideMenuModifier.DragEnded` | Sources/SwiftUISideMenu/SwiftUISideMenu.swift:16-24 | the new `isShowing` is `AfterDragEnd` of the configuration, the event and the old value |
| `SideMenu.SideMenuModifier.Tap` | Sources/SwiftUISideMenu/SwiftUISideMenu.swift:38-42 | the new `isShowing` is `AfterTap` of the old value; a tap never turns the menu on |
| `SideMenu.SideMenuModifier.CurrentLayout` | Sources/SwiftUISideMenu/SwiftUISideMenu.swift:25-36 | in the current state: the menu is half the container wide and adjoins the content; offsets are (w/2, 0) when showing and (0, -w/2) when hidden; content is disabled exactly while showing; the content frame is the container size |
| `SideMenuProperties.DragDisabledIsNoOp` | Sources/SwiftUISideMenu/SwiftUISideMenu.swift:17 | with `disableDragGesture == true` no drag end changes the state |
| `SideMenuProperties.NonSwipeIsNoOp` | Sources/SwiftUISideMenu/SwiftUISideMenu.swift:18 | a drag ending at x >= 200, or with vertical movement >= 50, or with horizontal movement <= 50, changes nothing |
| `SideMenuProperties.SwipeSetsDirection` | Sources/SwiftUISideMenu/SwiftUISideMenu.swift:18-20 | an acting swipe sets the state to whether it went right, whatever the state was before |
| `SideMenuProperties.DragEndIdempotent` | Sources/SwiftUISideMenu/SwiftUISideMenu.swift:18-20 | the same drag end twice gives the same state as once, so a drag is not a toggle |
| `SideMenuProperties.TapOnlyCloses` | Sources/SwiftUISideMenu/SwiftUISideMenu.swift:39-40 | a tap never opens the menu; it changes the state exactly when showing with `disableDragGesture == true` |
| `SideMenuProperties.GesturesExclusive` | Sources/SwiftUISideMenu/SwiftUISideMenu.swift:17-39 | for `nil`, `false` and `true`, drag handling is on exactly when tap-to-close is off |
| `SideMenuProperties.DragActsIffTapInert` | Sources/SwiftUISideMenu/SwiftUISideMenu.swift:16-42 | under each configuration, some drag end changes the state exactly when no tap does |
| `SideMenuProperties.PanesAdjoin` | Sources/SwiftUISideMenu/SwiftUISideMenu.swift:30-35 | menu width is w/2; content offset is w/2 or 0; menu offset is 0 or -w/2; menu offset + menu width == content offset |
| `SideMenuProperties.ContentDisabledWhileShowing` | Sources/SwiftUISideMenu/SwiftUISideMenu.swift:28-29 | content is disabled exactly when showing, and its frame equals the container size |
| `SideMenuProperties.RunWithoutActingDrag` | Sources/SwiftUISideMenu/SwiftUISideMenu.swift:16-42 | with drag enabled, a gesture sequence with no acting drag leaves the state unchanged, because taps do nothing there |
| `SideMenuProperties.RunFollowsLastSwipe` | Sources/SwiftUISideMenu/SwiftUISideMenu.swift:16-42 | with drag enabled, the state after any gesture sequence is the direction of its last acting drag |
| `SideMenuProperties.RunTapToClose` | Sources/SwiftUISideMenu/SwiftUISideMenu.swift:16-42 | with `disableDragGesture == true`, the menu shows after a gesture sequence exactly when it showed before and no tap came |
| `SideMenuProperties.ClosedStaysClosedWhenDragDisabled` | Sources/SwiftUISideMenu/SwiftUISideMenu.swift:17-40 | with `disableDragGesture == true`, a closed menu stays closed under any gestures |
| `SideMenuProperties.ScenarioRightSwipeOpens` | Sources/SwiftUISideMenu/SwiftUISideMenu.swift:18-20 | drag at x = 50 with dx = 80, dy = 10 opens the menu |
| `SideMenuProperties.ScenarioFarRightIgnored` | Sources/SwiftUISideMenu/SwiftUISideMenu.swift:18 | drag at x = 250 changes nothing |
| `SideMenuProperties.ScenarioLeftSwipeCloses` | Sources/SwiftUISideMenu/SwiftUISideMenu.swift:18-20 | drag at x = 50 with dx = -80 closes the menu |
| `SideMenuProperties.ScenarioShortSwipeIgnored` | Sources/SwiftUISideMenu/SwiftUISideMenu.swift:18 | drag with dx = 30 changes nothing |
| `SideMenuProperties.ScenarioTapWhenDragDisabled` | Sources/SwiftUISideMenu/SwiftUISideMenu.swift:39-40 | with drag disabled a tap closes an open menu and leaves a closed one closed |
| `SideMenuProperties.ClientTapCloses` | Sources/SwiftUISideMenu/SwiftUISideMenu.swift:16-42 | a client of the class proves, from the method contracts alone, that a modifier made without `disableDragGesture` has it unset, and that a tap closes an open menu when drag is disabled |

## Left out

- SwiftUI rendering: the `GeometryReader` and `ZStack` composition and the `.transition(.move(edge:))` animation. They are presentation, not state.
- `withAnimation` around the drag's state write. The write is modelled as instantaneous.
- The platform gesture recognizers. A finished drag arrives as given values (end x, horizontal and vertical translation).
- The `menuContent` builder. It is opaque UI content.
- The `View.sideMenu` extension. It only passes its arguments to the modifier's initializer.
- The demo view `SideMenuTest` and `SideMenu_Previews`. They are example glue; the demo's menu button writes the binding directly, with no guard.
- Floating-point rounding of `CGFloat`. The model uses exact reals.
