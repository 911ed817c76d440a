/**
 * The footer corner elements hide while the page scrolls down and come back while it
 * scrolls up (the `scroll` listener and its module-level `lastScrollTop`).
 *
 * The scroll offset the listener reads (`window.pageYOffset || scrollTop`, a possibly
 * fractional number of pixels) and whether `.footer-corner-elements` exists are the
 * event's parameters.
 */
module FooterScroll {

  /** The offset remembered for the next event: negative offsets (overscroll) count as 0. */
  function Remembered(scrollTop: real): (r: real)
    ensures r >= 0.0
    ensures r >= scrollTop
    ensures r == scrollTop || r == 0.0
  {
    if scrollTop <= 0.0 then 0.0 else scrollTop
  }

  class Footer {
    /** The module-level `lastScrollTop`. */
    var lastScrollTop: real
    /** The `hidden` class of `.footer-corner-elements`. */
    var hidden: bool

    ghost predicate Valid()
      reads this`lastScrollTop
    {
      lastScrollTop >= 0.0
    }

    /** The page loads at the top with the footer showing. */
    constructor ()
      ensures Valid() && lastScrollTop == 0.0 && !hidden
    {
      lastScrollTop := 0.0;
      hidden := false;
    }

    /**
     * One `scroll` event. When the footer exists it is hidden exactly when the offset grew
     * since the last event, and the new offset (clamped at 0) is remembered; without the
     * footer nothing happens, the remembered offset included.
     */
    method HandleScroll(scrollTop: real, footerPresent: bool)
      requires Valid()
      modifies this
      ensures Valid()
      ensures footerPresent ==> (hidden <==> scrollTop > old(lastScrollTop)) && lastScrollTop == Remembered(scrollTop)
      ensures !footerPresent ==> hidden == old(hidden) && lastScrollTop == old(lastScrollTop)
      ensures footerPresent && scrollTop <= 0.0 ==> !hidden
    {
      if footerPresent {
        if scrollTop > lastScrollTop {
          hidden := true;
        } else {
          hidden := false;
        }
        lastScrollTop := Remembered(scrollTop);
      }
    }
  }

  /** Two events at the same offset in a row: the second always shows the footer. */
  method SameOffsetShows(scrollTop: real)
  {
    var f := new Footer();
    f.HandleScroll(scrollTop, true);
    f.HandleScroll(scrollTop, true);
    assert !f.hidden;
  }

  /**
   * Scrolling up through the negative (overscroll) range: after an event at -30, an event at
   * -10.5 is not taken as scrolling down, because -30 was remembered as 0.
   */
  method OverscrollClamped()
  {
    var f := new Footer();
    f.HandleScroll(100.0, true);
    assert f.hidden;
    f.HandleScroll(-30.0, true);
    assert !f.hidden && f.lastScrollTop == 0.0;
    f.HandleScroll(-10.5, true);
    assert !f.hidden;
  }
}
