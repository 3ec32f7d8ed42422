/**
 * Month-to-month navigation in the month view: the floating prev/next
 * buttons of `setFloatingNav` and the swipe gesture of `enableSwipeForMonth`.
 * Both end by writing `#month/<id>` into the URL; here they return the id.
 */
module Navigation {
  import opened Wrappers

  /** Horizontal distance (px) a touch must travel to count as a swipe. */
  const THRESHOLD := 60
  /** Vertical distance (px) beyond which the touch is not a horizontal swipe. */
  const RESTRAINT := 80

  predicate IsMonthId(id: int) { 1 <= id <= 12 }

  /** The floating buttons: each present with the month it leads to, or absent. */
  datatype FloatingNav = FloatingNav(prev: Option<int>, next: Option<int>)

  /** `setFloatingNav(monthId)`: a previous-month button unless in January, a next-month button unless in December. */
  function FloatingNavFor(monthId: int): (nav: FloatingNav)
    ensures nav.prev.Some? <==> monthId > 1
    ensures nav.next.Some? <==> monthId < 12
    ensures nav.prev.Some? ==> nav.prev.value == monthId - 1
    ensures nav.next.Some? ==> nav.next.value == monthId + 1
  {
    FloatingNav(
      if monthId > 1 then Some(monthId - 1) else None,
      if monthId < 12 then Some(monthId + 1) else None)
  }

  /** From a real month the buttons never lead outside January..December. */
  lemma NavStaysInYear(monthId: int)
    requires IsMonthId(monthId)
    ensures var nav := FloatingNavFor(monthId);
      (nav.prev.Some? ==> IsMonthId(nav.prev.value)) && (nav.next.Some? ==> IsMonthId(nav.next.value))
    ensures monthId != 1 && monthId != 12 ==> FloatingNavFor(monthId).prev.Some? && FloatingNavFor(monthId).next.Some?
  {
  }

  /** Going back and then forward returns to the same month. */
  lemma NavRoundTrip(monthId: int)
    requires 1 < monthId <= 12
    ensures FloatingNavFor(FloatingNavFor(monthId).prev.value).next == Some(monthId)
  {
  }

  function Abs(x: int): nat { if x < 0 then -x else x }

  /**
   * The touch handlers of one month view: `touchstart` records where the
   * finger went down, `touchend` decides whether the movement was a swipe.
   */
  class SwipeTracker {
    const monthId: int
    var startX: int
    var startY: int
    var isTracking: bool

    constructor (monthId: int)
      ensures this.monthId == monthId
      ensures startX == 0 && startY == 0 && !isTracking
    {
      this.monthId := monthId;
      startX, startY, isTracking := 0, 0, false;
    }

    /** `touchstart`: remember the start point and start tracking. */
    method TouchStart(x: int, y: int)
      modifies this
      ensures startX == x && startY == y && isTracking
    {
      startX, startY, isTracking := x, y, true;
    }

    /**
     * `touchend` at (x, y): stop tracking and return the months written to
     * the URL, in order. A rightward swipe goes back, a leftward one forward;
     * nothing happens without a tracked touchstart or after a mostly
     * vertical movement.
     */
    method TouchEnd(x: int, y: int) returns (targets: seq<int>)
      modifies this
      ensures !isTracking && startX == old(startX) && startY == old(startY)
      ensures !old(isTracking) ==> targets == []
      ensures Abs(y - old(startY)) > RESTRAINT ==> targets == []
      ensures |targets| <= 1
      ensures targets == [monthId - 1] <==>
        old(isTracking) && Abs(y - old(startY)) <= RESTRAINT && x - old(startX) > THRESHOLD && monthId > 1
      ensures targets == [monthId + 1] <==>
        old(isTracking) && Abs(y - old(startY)) <= RESTRAINT && x - old(startX) < -THRESHOLD && monthId < 12
      ensures forall t | t in targets :: Some(t) == FloatingNavFor(monthId).prev || Some(t) == FloatingNavFor(monthId).next
      ensures IsMonthId(monthId) ==> forall t | t in targets :: IsMonthId(t)
    {
      targets := [];
      if !isTracking {
        return;
      }
      isTracking := false;

      var dx := x - startX;
      var dy := y - startY;

      if Abs(dy) > RESTRAINT {
        return;
      }
      if dx > THRESHOLD && monthId > 1 {
        targets := targets + [monthId - 1];
      }
      if dx < -THRESHOLD && monthId < 12 {
        targets := targets + [monthId + 1];
        assert targets[0] == monthId + 1;
      }
    }
  }

  /**
   * In March: a touchend with no touchstart does nothing, a 100px swipe to
   * the right goes to February, a second touchend does nothing, and a
   * steep movement does nothing.
   */
  method SwipeScenario() returns (none: seq<int>, back: seq<int>, again: seq<int>, steep: seq<int>)
    ensures none == [] && back == [2] && again == [] && steep == []
  {
    var tracker := new SwipeTracker(3);
    none := tracker.TouchEnd(500, 0);
    tracker.TouchStart(100, 100);
    back := tracker.TouchEnd(200, 120);
    again := tracker.TouchEnd(0, 120);
    tracker.TouchStart(300, 100);
    steep := tracker.TouchEnd(100, 250);
  }
}
