/** Timing properties of the Campus carousel over stretches of time and over
    event traces: when autoplay advances, when a cooldown re-enables autoplay,
    and what the visibility latch guarantees. */
module CampusTiming {
  import opened Wrappers
  import opened Slides
  import opened Campus

  lemma {:induction false} ElapseSplit(s: Carousel, a: nat, b: nat)
    ensures Elapse(s, a + b) == Elapse(Elapse(s, a), b)
    decreases a
  {
    if a > 0 {
      ElapseSplit(Tick(s), a - 1, b);
    }
  }

  lemma ElapseLast(s: Carousel, d: nat)
    requires d > 0
    ensures Elapse(s, d) == Tick(Elapse(s, d - 1))
  {
    ElapseSplit(s, d - 1, 1);
  }

  /** Before its due time an armed interval does nothing, and stray re-enable
      timers firing meanwhile leave the schedule alone. */
  lemma {:induction false} QuietBeforeTick(s: Carousel, d: nat)
    requires Inv(s) && Armed(s)
    requires s.now + d < s.tickDue.value
    ensures Elapse(s, d).current == s.current
    ensures Elapse(s, d).tickDue == s.tickDue
    decreases d
  {
    if d > 0 {
      QuietBeforeTick(Tick(s), d - 1);
    }
  }

  /** At its due time the interval advances the slide by one step and
      re-schedules itself one period later. */
  lemma AdvanceOnTick(s: Carousel)
    requires Inv(s) && Armed(s)
    ensures var r := Elapse(s, s.tickDue.value - s.now);
      && r.current == Next(s.current)
      && r.tickDue == Some(s.tickDue.value + IntervalMs)
  {
    var d := s.tickDue.value - s.now;
    QuietBeforeTick(s, d - 1);
    ElapseLast(s, d);
  }

  /** A freshly armed interval first advances exactly one period after arming. */
  lemma FirstAdvanceAfterArm(s: Carousel)
    requires Inv(s) && s.tickDue == Some(s.now + IntervalMs)
    ensures Elapse(s, IntervalMs - 1).current == s.current
    ensures Elapse(s, IntervalMs).current == Next(s.current)
    ensures Elapse(s, IntervalMs).tickDue == Some(s.now + 2 * IntervalMs)
  {
    QuietBeforeTick(s, IntervalMs - 1);
    AdvanceOnTick(s);
  }

  /** One more period after `n` milliseconds of an interval armed a full period ahead. */
  lemma PeriodAfter(s: Carousel, n: nat)
    requires Inv(s)
    requires Elapse(s, n).tickDue == Some(s.now + n + IntervalMs)
    ensures Elapse(s, n + IntervalMs).current == Next(Elapse(s, n).current)
    ensures Elapse(s, n + IntervalMs).tickDue == Some(s.now + n + 2 * IntervalMs)
  {
    var p := Elapse(s, n);
    AdvanceOnTick(p);
    ElapseSplit(s, n, IntervalMs);
  }

  /** Left alone, an interval armed a full period ahead advances once per
      period: after `k` periods the slide has moved `k` steps. */
  lemma {:induction false} AdvancesEveryPeriod(s: Carousel, k: nat)
    requires Inv(s) && s.tickDue == Some(s.now + IntervalMs)
    ensures Elapse(s, k * IntervalMs).current == NextN(s.current, k)
    ensures Elapse(s, k * IntervalMs).tickDue == Some(s.now + k * IntervalMs + IntervalMs)
    decreases k
  {
    if k == 0 {
      assert k * IntervalMs == 0;
    } else {
      var n := (k - 1) * IntervalMs;
      AdvancesEveryPeriod(s, k - 1);
      PeriodAfter(s, n);
      assert n + IntervalMs == k * IntervalMs;
    }
  }

  /** Any pending due time that no other pending one precedes is the next re-enable. */
  lemma NextReenableIs(timers: seq<int>, now: int, m: int)
    requires m in timers && now < m
    requires forall x | x in timers && now < x :: m <= x
    ensures NextReenable(timers, now) == Some(m)
  {
    assert !(forall x | x in timers :: x <= now);
  }

  /** While autoplay is paused and no re-enable timer is due, time passes and
      nothing else changes. */
  lemma {:induction false} CooldownQuiet(s: Carousel, d: nat)
    requires Inv(s) && !s.autoPlaying
    requires forall x | x in s.timers && s.now < x :: s.now + d < x
    ensures Elapse(s, d) == s.(now := s.now + d)
    decreases d
  {
    if d > 0 {
      assert s.now + 1 !in s.timers;
      assert Tick(s) == s.(now := s.now + 1);
      CooldownQuiet(Tick(s), d - 1);
    }
  }

  /** A paused carousel resumes at the OLDEST pending re-enable deadline, not at
      the latest click's: right before it nothing has changed, at it autoplay
      is back on, and when the section is visible a fresh interval is armed. */
  lemma ReenableAtOldestDeadline(s: Carousel, m: int)
    requires Inv(s) && !s.autoPlaying
    requires NextReenable(s.timers, s.now) == Some(m)
    ensures Elapse(s, m - s.now - 1) == s.(now := m - 1)
    ensures Elapse(s, m - s.now).autoPlaying
    ensures Elapse(s, m - s.now).current == s.current
    ensures s.visible ==> Elapse(s, m - s.now).tickDue == Some(m + IntervalMs)
  {
    CooldownQuiet(s, m - s.now - 1);
    ElapseLast(s, m - s.now);
  }

  /** After resuming, the first automatic advance comes a full period later. */
  lemma ResumeThenAdvance(s: Carousel, m: int)
    requires Inv(s) && !s.autoPlaying && s.visible
    requires NextReenable(s.timers, s.now) == Some(m)
    ensures Elapse(s, m - s.now + IntervalMs - 1).current == s.current
    ensures Elapse(s, m - s.now + IntervalMs).current == Next(s.current)
  {
    var d := m - s.now;
    ReenableAtOldestDeadline(s, m);
    var r := Elapse(s, d);
    FirstAdvanceAfterArm(r);
    ElapseSplit(s, d, IntervalMs - 1);
    ElapseSplit(s, d, IntervalMs);
  }

  /** The stale-timer behaviour of the source: a click made while an earlier
      cooldown is still running does not extend the pause.  The earlier timer
      re-enables autoplay before the new click's own cooldown has ended. */
  lemma StaleCooldownResumesEarly(s: Carousel, e: Event, m: int)
    requires Inv(s) && !s.autoPlaying
    requires NextReenable(s.timers, s.now) == Some(m) && m < s.now + CooldownMs
    requires IsNavigation(e)
    ensures var c := Step(s, e);
      && !c.autoPlaying
      && Elapse(c, m - s.now).autoPlaying
      && Elapse(c, CooldownMs - 1).autoPlaying
  {
    var c := Step(s, e);
    assert c.timers == s.timers + [s.now + CooldownMs];
    assert c.now == s.now;
    NextReenableIs(c.timers, c.now, m);
    ReenableAtOldestDeadline(c, m);
    ElapseSplit(c, m - s.now, CooldownMs - 1 - (m - s.now));
  }

  /** `goToSlide(k)` from a carousel with no cooldown running: the slide is `k`
      and autoplay is off at once, it stays off for the whole cooldown and is
      back on exactly `CooldownMs` later, still showing slide `k`. */
  lemma GoToResumesAfterCooldown(s: Carousel, k: SlideIndex)
    requires Inv(s) && NextReenable(s.timers, s.now).None?
    ensures var g := GoTo(s, k);
      && g.current == k && !g.autoPlaying
      && !Elapse(g, CooldownMs - 1).autoPlaying
      && Elapse(g, CooldownMs).autoPlaying
      && Elapse(g, CooldownMs).current == k
  {
    var g := GoTo(s, k);
    var m := s.now + CooldownMs;
    assert g.timers == s.timers + [m] && g.now == s.now;
    assert m - g.now == CooldownMs;
    NextReenableIs(g.timers, g.now, m);
    ReenableAtOldestDeadline(g, m);
  }

  /** A paused carousel with a re-enable timer due at `x` is autoplaying
      again by `x` at the latest. */
  lemma ResumedBy(c: Carousel, x: int)
    requires Inv(c) && !c.autoPlaying && x in c.timers && c.now < x
    ensures Elapse(c, x - c.now).autoPlaying
  {
    var m := NextReenable(c.timers, c.now).value;
    var a, b := m - c.now, x - m;
    assert a + b == x - c.now;
    ReenableAtOldestDeadline(c, m);
    ElapseSplit(c, a, b);
  }

  /** Whatever re-enable timers are already pending, a click with no further
      clicks after it is followed by autoplay being back on one cooldown later:
      the click's own timer fires then, if an older one has not already. */
  lemma ClickResumesWithinCooldown(s: Carousel, e: Event)
    requires Inv(s) && IsNavigation(e)
    ensures Elapse(Step(s, e), CooldownMs).autoPlaying
  {
    var c := Step(s, e);
    assert c.timers == s.timers + [s.now + CooldownMs] && c.now == s.now && !c.autoPlaying;
    ResumedBy(c, s.now + CooldownMs);
  }

  /** A timer re-enabling autoplay while it is already on is a no-op: the tick
      is the same as if no re-enable timer had ever been scheduled. */
  lemma RedundantReenableIsNoOp(s: Carousel)
    requires s.autoPlaying
    ensures Tick(s) == Tick(s.(timers := [])).(timers := s.timers)
  {
  }

  lemma {:induction false} RunAppend(s: Carousel, a: seq<Event>, b: seq<Event>)
    ensures Run(s, a + b) == Run(Run(s, a), b)
    decreases |a|
  {
    if a == [] {
      assert a + b == b;
    } else {
      assert (a + b)[0] == a[0];
      assert (a + b)[1..] == a[1..] + b;
      RunAppend(Step(s, a[0]), a[1..], b);
    }
  }

  /** Without clicks, a section that is still not visible at the end of a
      trace has shown the same slide throughout, however much time passed. */
  lemma {:induction false} HiddenNoAdvance(s: Carousel, trace: seq<Event>)
    requires Inv(s)
    requires forall k | 0 <= k < |trace| :: !IsNavigation(trace[k])
    requires !Run(s, trace).visible
    ensures Run(s, trace).current == s.current
    decreases |trace|
  {
    if trace != [] {
      var s' := Step(s, trace[0]);
      assert !IsNavigation(trace[0]);
      HiddenNoAdvance(s', trace[1..]);
    }
  }

  /** The visibility latch along a trace: once some prefix has made the
      section visible, every longer prefix keeps it visible. */
  lemma VisibleLatchOnPrefixes(s: Carousel, trace: seq<Event>, i: nat, j: nat)
    requires i <= j <= |trace|
    requires Run(s, trace[..i]).visible
    ensures Run(s, trace[..j]).visible
  {
    assert trace[..j] == trace[..i] + trace[i..j];
    RunAppend(s, trace[..i], trace[i..j]);
  }

  /** Clicking the next arrow `k` times in a row moves `k` steps forward. */
  lemma {:induction false} NextClicksRotate(s: Carousel, k: nat)
    ensures Run(s, seq(k, _ => NextClick)).current == NextN(s.current, k)
    decreases k
  {
    if k > 0 {
      var c := seq(k - 1, _ => NextClick);
      assert seq(k, _ => NextClick) == c + [NextClick];
      NextClicksRotate(s, k - 1);
      RunAppend(s, c, [NextClick]);
    }
  }

  /** Mounted off-screen, any amount of time passes with the slide unchanged;
      the section then scrolls into view and the slide advances by exactly one
      step a full interval later, and not a millisecond earlier. */
  lemma OffscreenMountScenario(hidden: nat)
    ensures Run(Mount, [Wait(hidden)]).current == 0
    ensures Run(Mount, [Wait(hidden), Intersection(true), Wait(IntervalMs - 1)]).current == 0
    ensures Run(Mount, [Wait(hidden), Intersection(true), Wait(IntervalMs)]).current == 1
  {
    var a := Elapse(Mount, hidden);
    assert Run(Mount, [Wait(hidden)]) == a;
    var b := Intersect(a, true);
    FirstAdvanceAfterArm(b);
    var w1, w2 := [Intersection(true), Wait(IntervalMs - 1)], [Intersection(true), Wait(IntervalMs)];
    RunAppend(Mount, [Wait(hidden)], w1);
    RunAppend(Mount, [Wait(hidden)], w2);
    assert [Wait(hidden)] + w1 == [Wait(hidden), Intersection(true), Wait(IntervalMs - 1)];
    assert [Wait(hidden)] + w2 == [Wait(hidden), Intersection(true), Wait(IntervalMs)];
    assert Run(a, w1) == Run(b, [Wait(IntervalMs - 1)]);
    assert Run(a, w2) == Run(b, [Wait(IntervalMs)]);
  }

}
