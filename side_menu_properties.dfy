/** Properties of the side menu's gesture rules and layout, for single events
    and for any sequence of gestures delivered one after another. */
module SideMenuProperties {
  import opened SideMenu

  /** A gesture the modifier reacts to. */
  datatype Gesture = DragEnd(event: DragEvent) | Tap

  /** The new `isShowing` after one gesture. */
  function Step(disableDragGesture: Option<bool>, isShowing: bool, g: Gesture): bool {
    match g
    case DragEnd(e) => AfterDragEnd(disableDragGesture, e, isShowing)
    case Tap => AfterTap(disableDragGesture, isShowing)
  }

  /** The new `isShowing` after the gestures `gs`, in order. */
  function Run(disableDragGesture: Option<bool>, isShowing: bool, gs: seq<Gesture>): bool
    decreases |gs|
  {
    if gs == [] then isShowing else Run(disableDragGesture, Step(disableDragGesture, isShowing, gs[0]), gs[1..])
  }

  /** A drag end that the modifier acts on under the given configuration. */
  predicate ActingDrag(disableDragGesture: Option<bool>, g: Gesture) {
    g.DragEnd? && DragEnabled(disableDragGesture) && IsEdgeSwipe(g.event)
  }

  // ---- single events -------------------------------------------------------

  /** With `disableDragGesture == true` no drag end changes the state. */
  lemma DragDisabledIsNoOp(e: DragEvent, isShowing: bool)
    ensures AfterDragEnd(Some(true), e, isShowing) == isShowing
  {
  }

  /** A drag that ends too far right, moves too far vertically or too little
      horizontally changes nothing, whatever the configuration. */
  lemma NonSwipeIsNoOp(config: Option<bool>, e: DragEvent, isShowing: bool)
    requires e.locationX >= 200.0 || Abs(e.height) >= 50.0 || Abs(e.width) <= 50.0
    ensures AfterDragEnd(config, e, isShowing) == isShowing
  {
  }

  /** A drag the modifier acts on sets the state to the swipe's direction,
      independent of the state before. */
  lemma SwipeSetsDirection(config: Option<bool>, e: DragEvent, isShowing: bool)
    requires DragEnabled(config) && IsEdgeSwipe(e)
    ensures AfterDragEnd(config, e, isShowing) == (e.width > 0.0)
    ensures AfterDragEnd(config, e, isShowing) == AfterDragEnd(config, e, !isShowing)
  {
  }

  /** A drag end is idempotent: the same drag twice gives what it gives once. */
  lemma DragEndIdempotent(config: Option<bool>, e: DragEvent, isShowing: bool)
    ensures AfterDragEnd(config, e, AfterDragEnd(config, e, isShowing)) == AfterDragEnd(config, e, isShowing)
  {
  }

  /** A tap never opens the menu, and changes it exactly when it is showing with
      tap-to-close on, closing it. */
  lemma TapOnlyCloses(config: Option<bool>, isShowing: bool)
    ensures !isShowing ==> !AfterTap(config, isShowing)
    ensures AfterTap(config, isShowing) != isShowing <==> isShowing && config == Some(true)
  {
  }

  /** For each of the three configurations, drag handling is on exactly when
      tap-to-close is off. */
  lemma GesturesExclusive(config: Option<bool>)
    ensures DragEnabled(config) <==> !TapCloseEnabled(config)
  {
    match config
    case None =>
    case Some(b) => if b {} else {}
  }

  /** The same exclusivity, in terms of behaviour: some drag end changes the
      state exactly when no tap does. */
  lemma DragActsIffTapInert(config: Option<bool>)
    ensures (exists e: DragEvent, s: bool :: AfterDragEnd(config, e, s) != s) <==>
            (forall s: bool :: AfterTap(config, s) == s)
  {
    GesturesExclusive(config);
    if DragEnabled(config) {
      var e := DragEvent(0.0, 100.0, 0.0);
      assert AfterDragEnd(config, e, false) != false;
    } else {
      assert AfterTap(config, true) != true;
    }
  }

  /** The panes' edges meet in both states: the menu ends where the content
      begins, the menu is half the container wide, and when hidden the menu sits
      entirely left of the container. */
  lemma PanesAdjoin(isShowing: bool, width: real, height: real)
    ensures var l := ComputeLayout(isShowing, width, height);
      l.menuWidth == width / 2.0 &&
      l.contentOffset == (if isShowing then width / 2.0 else 0.0) &&
      l.menuOffset == (if isShowing then 0.0 else -width / 2.0) &&
      l.menuOffset + l.menuWidth == l.contentOffset
  {
  }

  /** The content takes no input exactly while the menu shows, and its frame is
      the whole container. */
  lemma ContentDisabledWhileShowing(isShowing: bool, width: real, height: real)
    ensures ComputeLayout(isShowing, width, height).contentDisabled <==> isShowing
    ensures ComputeLayout(isShowing, width, height).contentWidth == width
    ensures ComputeLayout(isShowing, width, height).contentHeight == height
  {
  }

  // ---- sequences of gestures -----------------------------------------------

  /** With drag handling on, gestures none of which is an acting drag leave
      the state as it was (taps do nothing in this configuration). */
  lemma {:induction false} RunWithoutActingDrag(config: Option<bool>, isShowing: bool, gs: seq<Gesture>)
    requires DragEnabled(config)
    requires forall i :: 0 <= i < |gs| ==> !ActingDrag(config, gs[i])
    ensures Run(config, isShowing, gs) == isShowing
    decreases |gs|
  {
    if gs != [] {
      assert !ActingDrag(config, gs[0]);
      assert Step(config, isShowing, gs[0]) == isShowing;
      forall i | 0 <= i < |gs[1..]| ensures !ActingDrag(config, gs[1..][i]) {
        assert gs[1..][i] == gs[i + 1];
      }
      RunWithoutActingDrag(config, isShowing, gs[1..]);
    }
  }

  /** With drag handling on, the state after any gestures is the direction of
      the last acting drag among them. */
  lemma {:induction false} RunFollowsLastSwipe(config: Option<bool>, isShowing: bool, gs: seq<Gesture>, i: nat)
    requires DragEnabled(config)
    requires i < |gs| && ActingDrag(config, gs[i])
    requires forall j :: i < j < |gs| ==> !ActingDrag(config, gs[j])
    ensures Run(config, isShowing, gs) == (gs[i].event.width > 0.0)
    decreases i
  {
    if i == 0 {
      var after := Step(config, isShowing, gs[0]);
      assert after == (gs[0].event.width > 0.0);
      forall j | 0 <= j < |gs[1..]| ensures !ActingDrag(config, gs[1..][j]) {
        assert gs[1..][j] == gs[j + 1];
      }
      RunWithoutActingDrag(config, after, gs[1..]);
    } else {
      assert gs[1..][i - 1] == gs[i];
      forall j | i - 1 < j < |gs[1..]| ensures !ActingDrag(config, gs[1..][j]) {
        assert gs[1..][j] == gs[j + 1];
      }
      RunFollowsLastSwipe(config, Step(config, isShowing, gs[0]), gs[1..], i - 1);
    }
  }

  /** With `disableDragGesture == true` the menu shows after a run of gestures
      exactly when it showed before and no tap came. */
  lemma {:induction false} RunTapToClose(isShowing: bool, gs: seq<Gesture>)
    ensures Run(Some(true), isShowing, gs) <==> isShowing && forall i :: 0 <= i < |gs| ==> !gs[i].Tap?
    decreases |gs|
  {
    if gs != [] {
      var after := Step(Some(true), isShowing, gs[0]);
      assert after == (isShowing && !gs[0].Tap?);
      RunTapToClose(after, gs[1..]);
      assert (forall i :: 0 <= i < |gs| ==> !gs[i].Tap?) <==>
             !gs[0].Tap? && forall i :: 0 <= i < |gs[1..]| ==> !gs[1..][i].Tap?;
    }
  }

  /** Consequence: with `disableDragGesture == true` a closed menu stays closed
      whatever gestures arrive. */
  lemma {:induction false} ClosedStaysClosedWhenDragDisabled(gs: seq<Gesture>)
    ensures !Run(Some(true), false, gs)
  {
    RunTapToClose(false, gs);
  }

  // ---- example scenarios ---------------------------------------------------

  /** A right swipe ending at x = 50 opens the menu. */
  lemma ScenarioRightSwipeOpens()
    ensures AfterDragEnd(None, DragEvent(50.0, 80.0, 10.0), false)
  {
  }

  /** A swipe ending at x = 250 does nothing. */
  lemma ScenarioFarRightIgnored(isShowing: bool)
    ensures AfterDragEnd(None, DragEvent(250.0, 80.0, 10.0), isShowing) == isShowing
  {
  }

  /** A left swipe closes the menu. */
  lemma ScenarioLeftSwipeCloses()
    ensures !AfterDragEnd(None, DragEvent(50.0, -80.0, 10.0), true)
  {
  }

  /** A horizontal movement of 30 is too short. */
  lemma ScenarioShortSwipeIgnored(isShowing: bool)
    ensures AfterDragEnd(None, DragEvent(50.0, 30.0, 10.0), isShowing) == isShowing
  {
  }

  /** With drag disabled, a tap closes an open menu and leaves a closed one. */
  lemma ScenarioTapWhenDragDisabled()
    ensures !AfterTap(Some(true), true)
    ensures !AfterTap(Some(true), false)
  {
  }

  /** The class methods follow the functions above; a client can reason from
      their contracts alone. */
  method ClientTapCloses() returns (closed: bool)
    ensures closed
  {
    var d := new SideMenuModifier(false);
    assert d.disableDragGesture == None;

    var m := new SideMenuModifier(true, Some(true));
    m.DragEnded(DragEvent(50.0, 80.0, 10.0));
    assert m.isShowing;
    m.Tap();
    closed := !m.isShowing;
  }
}
