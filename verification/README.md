# University site UI state machines in Dafny

This project models the three small state machines of a university marketing
site built with React: the Campus image carousel, the QuickLinks typewriter
heading with its user-type tabs, and the MainNav bar's scroll flag, dropdown
and mobile menu. Everything else on the site is static markup or is listed
under "Left out".

Each component is an immutable state record with pure transition functions,
and a `Run` folds a trace of events (waits, clicks, viewport entries) over the
state. Time is an explicit integer clock in milliseconds. In Campus and
QuickLinks, `Tick` advances it by one millisecond and fires every timer due at
the new instant, and `Elapse(s, d)` is `d` ticks. MainNav has a single timer,
so its clock `elapsed` moves by a whole wait in one `Wait` step.

- `Slides` (slides.dfy): the four campus slides, wrap-around `Next`/`Prev`,
  the before/current/after position classification, the caption lookup and the
  progress numerator.
- `Viewport` (viewport.dfy): the one-shot IntersectionObserver latch shared by
  Campus and QuickLinks. An entry is an abstract `isIntersecting` boolean.
- `Campus` (campus.dfy): the carousel. Its state is the slide index,
  `isAutoPlaying`, `isVisible`, the due times of every 10 000 ms re-enable
  timer scheduled so far (a timer is pending while its due time is still
  ahead of the clock), and the due time of the next 5 000 ms autoplay tick. The
  autoplay effect re-runs only when the pair (`isAutoPlaying`, `isVisible`)
  changes. A re-run clears the interval and arms a new one a full period
  ahead exactly when both flags hold (`Commit`). `Inv` is the invariant of all
  reachable states: the interval is armed iff autoplay is on and the section
  was seen.
- `CampusTiming` (campus_timing.dfy): lemmas over time and traces. They cover
  when the interval fires and when a cooldown resumes autoplay. They also
  cover the stale-timer behaviour and the visibility latch.
- `QuickLinks` (quicklinks.dfy): the typewriter counter `i`, the text shown,
  the 80 ms interval, and the active user-type id with the `find` lookup.
- `TypewriterTiming` (typewriter_timing.dfy): one character per period, the
  full prompt after `|Prompt| + 1` firings, then a cleared interval.
- `MainNav` (mainnav.dfy): `isScrolled`, `activeDropdown`, `isMobileMenuOpen`
  and the 300 ms reveal latch.

Points where the code's behaviour is easy to misread:

- Cooldown timers are never cancelled. Every click's `setTimeout`
  (src/sections/Campus.tsx:53, 188, 199) stays pending, so the oldest one
  re-enables autoplay even if a later click's cooldown has not ended
  (`CampusTiming.StaleCooldownResumesEarly`). Whatever is pending, autoplay is
  back on at most one cooldown after any click
  (`CampusTiming.ClickResumesWithinCooldown`).
- The slide classification is linear (`index < currentSlide`,
  src/sections/Campus.tsx:150). On the wrap from the last slide to the first,
  the old slide is "after" (`Slides.ForwardStepExitSide`).
- The JavaScript `%` truncates toward zero and Dafny's `%` is Euclidean. They
  agree here because the operands in `nextSlide`/`prevSlide`
  (src/sections/Campus.tsx:43, 47) are never negative.

## Model

| member | source | states |
|---|---|---|
| Slides.Next | src/sections/Campus.tsx:42-44 | next slide is index + 1, wrapping from the last slide to 0; stays a valid index |
| Slides.Prev | src/sections/Campus.tsx:46-48 | previous slide is index - 1, wrapping from 0 to the last slide; stays a valid index |
| Slides.PrevInvertsNext | src/sections/Campus.tsx:42-48 | prevSlide undoes nextSlide and vice versa |
| Slides.NextNRotates | src/sections/Campus.tsx:42-44 | k forward steps rotate the index by k modulo the slide count |
| Slides.NextCycle | src/sections/Campus.tsx:42-44 | slide-count forward steps return to the starting slide |
| Slides.Classify | src/sections/Campus.tsx:147-153 | each slide is exactly one of current (equal index), before (smaller index) or after (larger index) |
| Slides.CurrentSlides | src/sections/Campus.tsx:147-149 | exactly one slide, the current one, is drawn as current |
| Slides.ForwardStepExitSide | src/sections/Campus.tsx:147-153 | after a forward step the old slide is "before", except on the wrap, where it is "after" |
| Slides.BackwardStepExitSide | src/sections/Campus.tsx:147-153 | after a backward step the old slide is "after", except on the wrap, where it is "before" |
| Slides.Caption | src/sections/Campus.tsx:172-178 | the caption read is in bounds: an existing slide, the one with id currentSlide + 1 |
| Slides.ProgressNumerator | src/sections/Campus.tsx:212 | the progress numerator lies in [1, slide count] and is full only on the last slide |
| Viewport.Observe | src/sections/Campus.tsx:67-83 | the visibility latch never reverts and flips only on the first intersecting entry |
| Campus.MountInv | src/sections/Campus.tsx:36-38 | the initial state satisfies the invariant, with no interval armed |
| Campus.NextReenable | src/sections/Campus.tsx:50-54 | the earliest pending re-enable: a scheduled due time still ahead of the clock and no later than any other; none exactly when every timer has fired |
| Campus.Commit | src/sections/Campus.tsx:56-65 | the effect touches only the interval schedule, and nothing at all when the dependency pair is unchanged |
| Campus.Navigate | src/sections/Campus.tsx:50-54 | a manual navigation sets the slide, pauses autoplay, disarms the interval and appends one re-enable due a cooldown later, keeping earlier ones |
| Campus.GoTo | src/sections/Campus.tsx:50-54 | goToSlide(k) sets the slide to k and pauses at once; earlier pending re-enables are kept |
| Campus.PrevArrow | src/sections/Campus.tsx:185-189 | the left arrow moves exactly one step back, pauses autoplay and appends one re-enable |
| Campus.NextArrow | src/sections/Campus.tsx:196-200 | the right arrow moves exactly one step forward, pauses autoplay and appends one re-enable |
| Campus.Intersect | src/sections/Campus.tsx:67-83 | an intersecting entry sets the latch once; becoming visible while autoplaying arms an interval a full period ahead; a visible section ignores entries |
| Campus.Tick | src/sections/Campus.tsx:56-65 | one millisecond keeps the invariant; the slide changes only by one forward step and only while autoplaying and visible; autoplay is never switched off by time; a newly armed interval is a full period ahead |
| Campus.Elapse | src/sections/Campus.tsx:56-65 | time alone keeps the invariant, never pauses autoplay, never changes the latch, and never moves a slide that was never seen |
| Campus.Step | src/sections/Campus.tsx:50-83 | every event keeps the invariant; the latch never reverts and is set only by an intersecting entry; only a click pauses autoplay |
| Campus.Run | src/sections/Campus.tsx:56-83 | every trace keeps the invariant and the visibility latch |
| CampusTiming.QuietBeforeTick | src/sections/Campus.tsx:58 | before its due time an armed interval leaves the slide and the schedule unchanged |
| CampusTiming.AdvanceOnTick | src/sections/Campus.tsx:58 | at its due time the interval advances one step and reschedules one period later |
| CampusTiming.FirstAdvanceAfterArm | src/sections/Campus.tsx:56-65 | a freshly armed interval first advances exactly one period after arming, not a millisecond earlier |
| CampusTiming.AdvancesEveryPeriod | src/sections/Campus.tsx:58 | left alone, k periods move the slide k steps forward |
| CampusTiming.CooldownQuiet | src/sections/Campus.tsx:53 | while paused and no re-enable is due, nothing changes but the clock |
| CampusTiming.ReenableAtOldestDeadline | src/sections/Campus.tsx:53 | a paused carousel resumes exactly at the oldest pending re-enable, re-arming the interval if visible |
| CampusTiming.ResumeThenAdvance | src/sections/Campus.tsx:53-65 | after resuming, the first automatic advance comes exactly one period later |
| CampusTiming.StaleCooldownResumesEarly | src/sections/Campus.tsx:185-200 | a click during a running cooldown pauses, but the earlier timer resumes autoplay before the click's own cooldown ends |
| CampusTiming.GoToResumesAfterCooldown | src/sections/Campus.tsx:50-54 | with no cooldown running, goToSlide(k) pauses for exactly the cooldown and then resumes on slide k |
| CampusTiming.ClickResumesWithinCooldown | src/sections/Campus.tsx:50-54 | after any click, with no further clicks, autoplay is back on one cooldown later, whatever timers were pending |
| CampusTiming.RedundantReenableIsNoOp | src/sections/Campus.tsx:53-65 | a re-enable firing while autoplay is on has no effect: the tick is the same as with no re-enable timer ever scheduled |
| CampusTiming.HiddenNoAdvance | src/sections/Campus.tsx:56-83 | without clicks, a section still not visible shows the same slide however much time passes |
| CampusTiming.VisibleLatchOnPrefixes | src/sections/Campus.tsx:67-83 | once a prefix of a trace has made the section visible, every longer prefix keeps it visible |
| CampusTiming.NextClicksRotate | src/sections/Campus.tsx:196-200 | k clicks on the right arrow move k steps forward |
| CampusTiming.OffscreenMountScenario | src/sections/Campus.tsx:36-83 | mounted off-screen, the slide stays 0; once seen, it becomes 1 exactly one period later |
| QuickLinks.MountInv | src/sections/QuickLinks.tsx:34-36 | the initial state satisfies the invariant |
| QuickLinks.Find | src/sections/QuickLinks.tsx:105 | find succeeds iff some user type has the id, and returns the first user type with that id |
| QuickLinks.IdsDistinct | src/sections/QuickLinks.tsx:14-20 | the five user-type ids are pairwise distinct |
| QuickLinks.SelectTab | src/sections/QuickLinks.tsx:119 | a tab click sets the active id to a declared one and changes nothing else; the heading's lookup finds the clicked tab |
| QuickLinks.ExactlyOneActiveTab | src/sections/QuickLinks.tsx:116-123 | exactly one tab is rendered active, and the heading's lookup finds that tab |
| QuickLinks.Intersect | src/sections/QuickLinks.tsx:57-73 | the first intersecting entry sets the latch and starts the typewriter with i = 0, one period ahead; later entries change nothing |
| QuickLinks.Type | src/sections/QuickLinks.tsx:45-52 | a firing within the text publishes the prefix of length i and increments i; past the text it clears the interval and changes nothing else |
| QuickLinks.Tick | src/sections/QuickLinks.tsx:40-55 | one millisecond moves only the clock unless the typewriter interval is due |
| QuickLinks.TickInv | src/sections/QuickLinks.tsx:40-55 | one millisecond keeps the invariant; nothing is typed before the section is seen; the shown text never shrinks |
| QuickLinks.Elapse | src/sections/QuickLinks.tsx:40-55 | time alone advances the clock and leaves the latch and the active tab alone |
| QuickLinks.ElapseInv | src/sections/QuickLinks.tsx:40-55 | time alone keeps the invariant and never shortens the shown text; nothing is typed while the section is hidden |
| QuickLinks.Step | src/sections/QuickLinks.tsx:40-119 | the latch never reverts; tab clicks and the typewriter do not interfere |
| QuickLinks.StepInv | src/sections/QuickLinks.tsx:40-119 | every event keeps the invariant |
| QuickLinks.Run | src/sections/QuickLinks.tsx:40-119 | every trace keeps the visibility latch |
| QuickLinks.RunInv | src/sections/QuickLinks.tsx:40-119 | every trace keeps the invariant |
| TypewriterTiming.ShownPrefix | src/sections/QuickLinks.tsx:43-48 | the shown text is the prompt prefix one shorter than the counter, always a prefix of "Are you" |
| TypewriterTiming.QuietBeforeFiring | src/sections/QuickLinks.tsx:45-52 | between firings only the clock moves |
| TypewriterTiming.StoppedStaysStill | src/sections/QuickLinks.tsx:49-51 | once the interval is cleared nothing changes again |
| TypewriterTiming.FiresAtDue | src/sections/QuickLinks.tsx:45-52 | an interval due in d ms fires exactly once in those d ms, at the last one |
| TypewriterTiming.OnePeriod | src/sections/QuickLinks.tsx:45-52 | a period starting right after a firing ends with exactly one firing |
| TypewriterTiming.ProductivePeriod | src/sections/QuickLinks.tsx:46-48 | a period with the counter within the text advances it by one and keeps the phase |
| TypewriterTiming.CountsOnePerPeriod | src/sections/QuickLinks.tsx:46-48 | k periods within the text advance the counter by k and keep the interval's phase |
| TypewriterTiming.TypesOnePerPeriod | src/sections/QuickLinks.tsx:44-52 | k periods publish k more characters, the prefix of length i - 1 |
| TypewriterTiming.TypingCompletes | src/sections/QuickLinks.tsx:43-52 | after len + 1 firings the whole prompt shows; the next firing clears the interval with the text unchanged, and it stays so |
| TypewriterTiming.NothingTypedWhileHidden | src/sections/QuickLinks.tsx:40-41 | before an intersecting entry nothing is typed, whatever time passes and tabs are clicked |
| TypewriterTiming.MountScenario | src/sections/QuickLinks.tsx:40-73 | seen after any delay, the heading reads "Are you" 640 ms later |
| MainNav.MountInv | src/sections/MainNav.tsx:14-17 | the initial state satisfies the invariant |
| MainNav.NamesDistinct | src/sections/MainNav.tsx:4-11 | the nav item names are pairwise distinct |
| MainNav.Scroll | src/sections/MainNav.tsx:22-24 | isScrolled becomes true exactly when scrollY > 50; nothing else changes |
| MainNav.MouseEnter | src/sections/MainNav.tsx:66 | entering an item with a dropdown makes it active; entering one without leaves the state unchanged |
| MainNav.MouseLeave | src/sections/MainNav.tsx:67 | leaving any item clears the active dropdown and nothing else |
| MainNav.MenuButton | src/sections/MainNav.tsx:129 | the menu button flips the mobile menu and nothing else |
| MainNav.MobileLink | src/sections/MainNav.tsx:152 | a mobile link closes the menu whatever its prior state |
| MainNav.Wait | src/sections/MainNav.tsx:20 | the reveal latch is set once 300 ms have elapsed and never reverts |
| MainNav.MenuButtonTwice | src/sections/MainNav.tsx:129 | two presses of the menu button restore the state |
| MainNav.AtMostOnePanel | src/sections/MainNav.tsx:85 | with a dropdown-named activeDropdown exactly one panel renders, that item's; with none, no panel |
| MainNav.Step | src/sections/MainNav.tsx:19-152 | every event keeps the invariant and the reveal latch |
| MainNav.Run | src/sections/MainNav.tsx:19-152 | every trace keeps the invariant and the reveal latch |
| MainNav.ScrolledTracksLastScroll | src/sections/MainNav.tsx:22-26 | after any trace isScrolled is the threshold test of the last scroll position, or unchanged if none |
| MainNav.OnePanelAlongAnyTrace | src/sections/MainNav.tsx:66-85 | from mount, whatever the user does, at most one dropdown panel is open |

## Left out

- Markup, Tailwind classes, transition delays and styling are not modelled. This includes the Ken Burns class, the chevron rotation and the static quick-link grid.
- The static content sections are not part of this model: news, events, research, footers and the top bar. They hold literal data, translation lookups and hover ids.
- The Hero parallax and particles, and the Stats counter, are left out. They are floating-point and random numerics.
- The smooth-scroll anchor handler in src/App.tsx is left out. It is DOM wiring (`closest`, `querySelector`, `scrollIntoView`).
- IntersectionObserver geometry is abstracted into the entry's `isIntersecting` flag. This covers the 0.2 and 0.3 thresholds. A missing `sectionRef` is a trace with no entries.
- Unmounting is not modelled. No state is observable after teardown. Note that the Campus cleanup clears the interval but not the pending re-enable timers.
- React scheduling is reduced to two rules. State updates in one handler apply together. An effect re-runs only when a dependency value actually changes. Double-invoked effects in development mode are not modelled.
- Wall-clock drift and timer clamping are not modelled. Timers fire exactly at their due millisecond.
- Campus.Navigate: the "interval disarmed" clause is stated for states satisfying `Inv`. The handler itself does not clear the interval when `isAutoPlaying` was already false, and in reachable states no interval is armed then.
