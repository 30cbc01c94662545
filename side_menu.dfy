/** A model of the `SideMenu` view modifier: a slide-in menu whose visibility is
    one boolean binding, changed by the end of a drag gesture and by a tap, and a
    layout that places the host content and the menu pane from that boolean and
    the container size. Screen coordinates are `real` numbers. */
module SideMenu {

  datatype Option<T> = None | Some(value: T)

  /** The parts of a finished drag that the modifier reads: the horizontal
      position of the drag where it ended (`location.x`) and the translation
      accumulated since it began (`translation.width`, `translation.height`). */
  datatype DragEvent = DragEvent(locationX: real, width: real, height: real)

  /** Where the two panes go and whether the host content takes input. */
  datatype Layout = Layout(
    contentOffset: real,    // horizontal offset of the host content
    contentWidth: real,     // frame of the host content
    contentHeight: real,
    contentDisabled: bool,  // host content refuses input
    menuOffset: real,       // horizontal offset of the menu pane
    menuWidth: real)        // frame width of the menu pane

  /** A drag must end left of this x coordinate to count. */
  const EdgeLimit: real := 200.0
  /** A drag must move vertically by less than this ... */
  const VerticalLimit: real := 50.0
  /** ... and horizontally by more than this. */
  const HorizontalLimit: real := 50.0

  function Abs(v: real): (r: real)
    ensures r >= 0.0 && (r == v || r == -v)
  {
    if v < 0.0 then -v else v
  }

  /** Drag handling is on when `disableDragGesture` is unset or false. */
  predicate DragEnabled(disableDragGesture: Option<bool>)
    ensures DragEnabled(disableDragGesture) <==> disableDragGesture != Some(true)
  {
    assert disableDragGesture.Some? && !disableDragGesture.value ==> disableDragGesture == Some(false);
    disableDragGesture == None || disableDragGesture == Some(false)
  }

  /** Tap-to-close is on only when `disableDragGesture` is explicitly true. */
  predicate TapCloseEnabled(disableDragGesture: Option<bool>)
    ensures TapCloseEnabled(disableDragGesture) <==> disableDragGesture.Some? && disableDragGesture.value
  {
    disableDragGesture == Some(true)
  }

  /** The shape test the drag end applies: near the leading edge, mostly
      horizontal, and long enough. */
  predicate IsEdgeSwipe(e: DragEvent)
    ensures IsEdgeSwipe(e) <==>
      e.locationX < 200.0 && -50.0 < e.height < 50.0 && (e.width < -50.0 || 50.0 < e.width)
  {
    e.locationX < EdgeLimit && Abs(e.height) < VerticalLimit && Abs(e.width) > HorizontalLimit
  }

  /** The value of `isShowing` after a drag ends: a qualifying swipe sets it to
      whether the swipe went right; anything else leaves it alone. */
  function AfterDragEnd(disableDragGesture: Option<bool>, e: DragEvent, isShowing: bool): (r: bool)
    ensures r != isShowing ==> DragEnabled(disableDragGesture) && IsEdgeSwipe(e)
    ensures DragEnabled(disableDragGesture) && IsEdgeSwipe(e) ==> (r <==> e.width > 0.0)
  {
    if DragEnabled(disableDragGesture) && IsEdgeSwipe(e) then e.width > 0.0 else isShowing
  }

  /** The value of `isShowing` after a tap: toggled only while showing and with
      tap-to-close on, so a tap can only close the menu. */
  function AfterTap(disableDragGesture: Option<bool>, isShowing: bool): (r: bool)
    ensures r ==> isShowing
    ensures r != isShowing <==> isShowing && TapCloseEnabled(disableDragGesture)
  {
    if isShowing && TapCloseEnabled(disableDragGesture) then !isShowing else isShowing
  }

  /** The layout for a container of the given size. */
  function ComputeLayout(isShowing: bool, width: real, height: real): (l: Layout)
    ensures l.menuOffset + l.menuWidth == l.contentOffset
    ensures l.contentDisabled == isShowing
    ensures l.contentWidth == width && l.contentHeight == height
    ensures l.menuWidth * 2.0 == width
    ensures isShowing ==> l.contentOffset == l.menuWidth && l.menuOffset == 0.0
    ensures !isShowing ==> l.contentOffset == 0.0 && l.menuOffset == -l.menuWidth
  {
    Layout(
      contentOffset := if isShowing then width / 2.0 else 0.0,
      contentWidth := width,
      contentHeight := height,
      contentDisabled := isShowing,
      menuOffset := if isShowing then 0.0 else -width / 2.0,
      menuWidth := width / 2.0)
  }

  /** One attached modifier. `isShowing` stands for the binding the host
      supplies; `disableDragGesture` is fixed when the modifier is made. */
  class SideMenuModifier {
    var isShowing: bool
    const disableDragGesture: Option<bool>

    constructor (isShowing: bool, disableDragGesture: Option<bool> := None)
      ensures this.isShowing == isShowing
      ensures this.disableDragGesture == disableDragGesture
    {
      this.isShowing := isShowing;
      this.disableDragGesture := disableDragGesture;
    }

    /** The drag gesture's `onEnded` handler. */
    method DragEnded(e: DragEvent)
      modifies this
      ensures isShowing == AfterDragEnd(disableDragGesture, e, old(isShowing))
    {
      if disableDragGesture == None || disableDragGesture == Some(false) {
        if e.locationX < EdgeLimit && Abs(e.height) < VerticalLimit && Abs(e.width) > HorizontalLimit {
          isShowing := e.width > 0.0;
        }
      }
    }

    /** The `onTapGesture` handler. */
    method Tap()
      modifies this
      ensures isShowing == AfterTap(disableDragGesture, old(isShowing))
      ensures isShowing ==> old(isShowing)
    {
      if isShowing && disableDragGesture == Some(true) {
        isShowing := !isShowing;
      }
    }

    /** The layout the modifier's body produces in the current state. */
    function CurrentLayout(width: real, height: real): (l: Layout)
      reads this
      ensures l.menuOffset + l.menuWidth == l.contentOffset
      ensures l.contentDisabled == isShowing
      ensures l.contentWidth == width && l.contentHeight == height
      ensures l.menuWidth * 2.0 == width
      ensures isShowing ==> l.contentOffset == l.menuWidth && l.menuOffset == 0.0
      ensures !isShowing ==> l.contentOffset == 0.0 && l.menuOffset == -l.menuWidth
    {
      ComputeLayout(isShowing, width, height)
    }
  }
}
