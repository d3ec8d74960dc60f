/** The one-shot viewport trigger shared by the Campus and QuickLinks sections:
    an IntersectionObserver whose callback sets `isVisible` on the first
    intersecting entry and then disconnects.  Geometry (the 20 % and 30 %
    thresholds) is abstracted into the boolean `isIntersecting` of the entry. */
module Viewport {

  /** The visibility flag after the observer delivers one entry. */
  function Observe(visible: bool, isIntersecting: bool): (r: bool)
    // the latch never reverts
    ensures visible ==> r
    // it flips exactly when a not-yet-visible section receives an intersecting entry
    ensures r != visible <==> !visible && isIntersecting
  {
    visible || isIntersecting
  }

}
