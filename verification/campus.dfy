/** The Campus section's carousel as a state machine over an explicit clock of
    integer milliseconds.  Clicks and viewport entries happen between clock
    ticks; `Tick` advances the clock by one millisecond and fires every timer
    due at the new instant.

    The autoplay effect depends on the pair (`isAutoPlaying`, `isVisible`): it
    re-runs only when that pair changes, its cleanup clears the running
    interval, and the re-run arms a fresh 5 000 ms interval exactly when both
    flags hold.  Every manual navigation schedules its own 10 000 ms re-enable
    timer and none of them is ever cancelled. */
module Campus {
  import opened Wrappers
  import opened Slides
  import Viewport

  /** Period of the autoplay interval. */
  const IntervalMs: int := 5000
  /** Delay of the re-enable timer scheduled by a manual navigation. */
  const CooldownMs: int := 10000

  datatype Carousel = Carousel(
    now: int,               // the clock, in milliseconds
    current: SlideIndex,    // `currentSlide`
    autoPlaying: bool,      // `isAutoPlaying`
    visible: bool,          // `isVisible`
    timers: seq<int>,       // due times of every re-enable timer scheduled so far
    tickDue: Option<int>)   // due time of the next autoplay tick, when the interval is armed

  /** The state right after mounting at time 0: the interval effect ran with
      `isVisible` false and armed nothing. */
  const Mount: Carousel := Carousel(0, 0, true, false, [], None)

  predicate Armed(s: Carousel) {
    s.tickDue.Some?
  }

  /** The invariant of every reachable state. */
  predicate Inv(s: Carousel) {
    // the interval is armed exactly while autoplay is on and the section was seen
    && (Armed(s) <==> s.autoPlaying && s.visible)
    // an armed interval fires within one period
    && (Armed(s) ==> s.now < s.tickDue.value <= s.now + IntervalMs)
    // every re-enable timer was scheduled at most one cooldown ago
    && (forall x | x in s.timers :: x <= s.now + CooldownMs)
  }

  lemma MountInv()
    ensures Inv(Mount) && !Armed(Mount)
  {
  }

  /** The due time of the earliest pending re-enable timer among `timers` at time `now`. */
  function NextReenable(timers: seq<int>, now: int): (r: Option<int>)
    ensures r.Some? ==> r.value in timers && now < r.value
    ensures r.Some? ==> forall x | x in timers && now < x :: r.value <= x
    ensures r.None? <==> forall x | x in timers :: x <= now
    decreases |timers|
  {
    if timers == [] then None
    else
      var rest := NextReenable(timers[1..], now);
      assert forall x | x in timers :: x == timers[0] || x in timers[1..];
      if timers[0] <= now then rest
      else if rest.Some? && rest.value < timers[0] then rest
      else Some(timers[0])
  }

  /** Commits a state update and then runs the autoplay effect if its
      dependency pair changed: the cleanup clears the interval and the new run
      arms one due a full period from now when both flags hold. */
  function Commit(before: Carousel, after: Carousel): (r: Carousel)
    ensures r.(tickDue := after.tickDue) == after
    ensures (before.autoPlaying, before.visible) == (after.autoPlaying, after.visible) ==> r == after
  {
    if (before.autoPlaying, before.visible) == (after.autoPlaying, after.visible) then after
    else after.(tickDue := if after.autoPlaying && after.visible then Some(after.now + IntervalMs) else None)
  }

  /** The common part of every manual navigation: move to `target`, pause
      autoplay, and schedule one more re-enable a cooldown from now. */
  function Navigate(s: Carousel, target: SlideIndex): (r: Carousel)
    ensures r.current == target && !r.autoPlaying
    ensures Inv(s) ==> !Armed(r)
    // earlier re-enable timers are never cancelled, the new one is added
    ensures r.timers == s.timers + [s.now + CooldownMs]
    ensures r.now == s.now && r.visible == s.visible
    ensures Inv(s) ==> Inv(r)
  {
    Commit(s, s.(current := target, autoPlaying := false, timers := s.timers + [s.now + CooldownMs]))
  }

  /** `goToSlide(index)`, called from a thumbnail button. */
  function GoTo(s: Carousel, index: SlideIndex): (r: Carousel)
    ensures r.current == index && !r.autoPlaying
    ensures Inv(s) ==> !Armed(r)
    ensures r.timers == s.timers + [s.now + CooldownMs]
    ensures Inv(s) ==> Inv(r)
  {
    Navigate(s, index)
  }

  /** The previous-arrow handler: `prevSlide()` then the pause. */
  function PrevArrow(s: Carousel): (r: Carousel)
    ensures Next(r.current) == s.current && r.current != s.current
    ensures !r.autoPlaying && (Inv(s) ==> !Armed(r))
    ensures r.timers == s.timers + [s.now + CooldownMs]
    ensures Inv(s) ==> Inv(r)
  {
    Navigate(s, Prev(s.current))
  }

  /** The next-arrow handler: `nextSlide()` then the pause. */
  function NextArrow(s: Carousel): (r: Carousel)
    ensures Prev(r.current) == s.current && r.current != s.current
    ensures !r.autoPlaying && (Inv(s) ==> !Armed(r))
    ensures r.timers == s.timers + [s.now + CooldownMs]
    ensures Inv(s) ==> Inv(r)
  {
    Navigate(s, Next(s.current))
  }

  /** The IntersectionObserver callback for one entry. */
  function Intersect(s: Carousel, isIntersecting: bool): (r: Carousel)
    ensures s.visible ==> r == s
    ensures r.visible <==> s.visible || isIntersecting
    ensures r.current == s.current && r.autoPlaying == s.autoPlaying && r.timers == s.timers
    // becoming visible while autoplay is on arms a fresh interval
    ensures !s.visible && isIntersecting && s.autoPlaying ==> r.tickDue == Some(s.now + IntervalMs)
    ensures Inv(s) ==> Inv(r)
  {
    Commit(s, s.(visible := Viewport.Observe(s.visible, isIntersecting)))
  }

  /** One millisecond passes: the interval fires if due, and every re-enable
      timer due now runs `setIsAutoPlaying(true)`. */
  function Tick(s: Carousel): (r: Carousel)
    ensures r.now == s.now + 1 && r.visible == s.visible
    ensures s.autoPlaying ==> r.autoPlaying
    ensures Inv(s) ==> Inv(r)
    // a slide advances by itself only one step, and only while autoplaying and visible
    ensures Inv(s) && r.current != s.current ==> s.autoPlaying && s.visible && r.current == Next(s.current)
    // an interval armed by this tick starts a full period from now
    ensures !Armed(s) && Armed(r) ==> r.tickDue == Some(r.now + IntervalMs)
  {
    var t := s.now + 1;
    var s1 := s.(now := t);
    var s2 := if s.tickDue == Some(t) then s1.(current := Next(s1.current), tickDue := Some(t + IntervalMs)) else s1;
    if t in s.timers then Commit(s2, s2.(autoPlaying := true)) else s2
  }

  /** `d` milliseconds pass with no user interaction. */
  function Elapse(s: Carousel, d: nat): (r: Carousel)
    ensures r.now == s.now + d && r.visible == s.visible
    ensures s.autoPlaying ==> r.autoPlaying
    ensures Inv(s) ==> Inv(r)
    // a section never seen never advances
    ensures Inv(s) && !s.visible ==> r.current == s.current
    decreases d
  {
    if d == 0 then s else Elapse(Tick(s), d - 1)
  }

  datatype Event =
    | Wait(ms: nat)
    | PrevClick
    | NextClick
    | ThumbnailClick(index: SlideIndex)
    | Intersection(isIntersecting: bool)

  predicate IsNavigation(e: Event) {
    e.PrevClick? || e.NextClick? || e.ThumbnailClick?
  }

  function Step(s: Carousel, e: Event): (r: Carousel)
    ensures Inv(s) ==> Inv(r)
    // the visibility latch: never reverts, and only an intersecting entry sets it
    ensures s.visible ==> r.visible
    ensures r.visible != s.visible ==> e == Intersection(true)
    // only a click pauses autoplay
    ensures s.autoPlaying && !r.autoPlaying ==> IsNavigation(e)
  {
    match e
    case Wait(ms) => Elapse(s, ms)
    case PrevClick => PrevArrow(s)
    case NextClick => NextArrow(s)
    case ThumbnailClick(k) => GoTo(s, k)
    case Intersection(b) => Intersect(s, b)
  }

  function Run(s: Carousel, trace: seq<Event>): (r: Carousel)
    ensures Inv(s) ==> Inv(r)
    ensures s.visible ==> r.visible
    decreases |trace|
  {
    if trace == [] then s else Run(Step(s, trace[0]), trace[1..])
  }

}
