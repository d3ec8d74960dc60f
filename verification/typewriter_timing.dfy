/** Timing properties of the QuickLinks typewriter: one character per 80 ms
    period once the section is seen, the full prompt after `|Prompt| + 1`
    productive firings, and a stopped interval one firing later. */
module TypewriterTiming {
  import opened Wrappers
  import opened QuickLinks

  lemma {:induction false} ElapseSplit(s: Section, a: nat, b: nat)
    ensures Elapse(s, a + b) == Elapse(Elapse(s, a), b)
    decreases a
  {
    if a > 0 {
      ElapseSplit(Tick(s), a - 1, b);
    }
  }

  lemma ElapseLast(s: Section, d: nat)
    requires d > 0
    ensures Elapse(s, d) == Tick(Elapse(s, d - 1))
  {
    ElapseSplit(s, d - 1, 1);
  }

  /** Between firings only the clock moves. */
  lemma {:induction false} QuietBeforeFiring(s: Section, d: nat)
    requires s.timerDue.Some? && s.now + d < s.timerDue.value
    ensures Elapse(s, d) == s.(now := s.now + d)
    decreases d
  {
    if d > 0 {
      QuietBeforeFiring(Tick(s), d - 1);
    }
  }

  /** Once the interval is cleared nothing ever changes again but the clock. */
  lemma {:induction false} StoppedStaysStill(s: Section, d: nat)
    requires s.timerDue.None?
    ensures Elapse(s, d) == s.(now := s.now + d)
    decreases d
  {
    if d > 0 {
      StoppedStaysStill(Tick(s), d - 1);
    }
  }

  /** Whatever the delay, the interval fires exactly once, at its due time. */
  lemma FiresAtDue(s: Section, d: nat)
    requires d > 0 && s.timerDue == Some(s.now + d)
    ensures Elapse(s, d) == Type(s.(now := s.now + d))
  {
    var x := Elapse(s, d - 1);
    QuietBeforeFiring(s, d - 1);
    assert x == s.(now := s.now + d - 1);
    ElapseLast(s, d);
    assert x.timerDue == Some(x.now + 1);
    assert Tick(x) == Type(x.(now := x.now + 1));
    assert x.(now := x.now + 1) == s.(now := s.now + d);
  }

  /** A period that starts right after a firing ends with exactly one firing. */
  lemma OnePeriod(s: Section)
    requires s.timerDue == Some(s.now + TypeIntervalMs)
    ensures Elapse(s, TypeIntervalMs) == Type(s.(now := s.now + TypeIntervalMs))
  {
    FiresAtDue(s, TypeIntervalMs);
  }

  /** The text shown is determined by the counter: the prefix of the prompt
      one shorter than the counter, never longer than the prompt. */
  lemma ShownPrefix(s: Section)
    requires Inv(s)
    ensures s.displayText == Prompt[..if s.i == 0 then 0 else s.i - 1]
    ensures s.displayText <= Prompt
  {
  }

  /** A period that starts while the counter is within the text advances it by one. */
  lemma ProductivePeriod(p: Section)
    requires p.timerDue == Some(p.now + TypeIntervalMs) && p.i <= |Prompt|
    ensures var r := Elapse(p, TypeIntervalMs);
      && r.i == p.i + 1
      && r.timerDue == Some(r.now + TypeIntervalMs)
  {
    OnePeriod(p);
    var q := p.(now := p.now + TypeIntervalMs);
    assert q.i <= |Prompt|;
    assert Type(q).i == p.i + 1;
    assert Type(q).timerDue == Some(q.now + TypeIntervalMs);
  }

  /** One more productive period after `n` milliseconds. */
  lemma PeriodAfter(s: Section, n: nat)
    requires Elapse(s, n).timerDue == Some(Elapse(s, n).now + TypeIntervalMs)
    requires Elapse(s, n).i <= |Prompt|
    ensures Elapse(s, n + TypeIntervalMs).i == Elapse(s, n).i + 1
    ensures Elapse(s, n + TypeIntervalMs).timerDue == Some(s.now + n + 2 * TypeIntervalMs)
  {
    var p := Elapse(s, n);
    ProductivePeriod(p);
    var r := Elapse(p, TypeIntervalMs);
    assert r.now == s.now + n + TypeIntervalMs;
    assert r.timerDue == Some(s.now + n + 2 * TypeIntervalMs);
    ElapseSplit(s, n, TypeIntervalMs);
  }

  /** Each period advances the counter by one while it is within the text,
      keeping the interval's phase. */
  lemma {:induction false} CountsOnePerPeriod(s: Section, k: nat)
    requires s.timerDue == Some(s.now + TypeIntervalMs)
    requires s.i + k <= |Prompt| + 1
    ensures Elapse(s, k * TypeIntervalMs).i == s.i + k
    ensures Elapse(s, k * TypeIntervalMs).timerDue == Some(s.now + k * TypeIntervalMs + TypeIntervalMs)
    decreases k
  {
    if k == 0 {
      assert k * TypeIntervalMs == 0;
    } else {
      var n := (k - 1) * TypeIntervalMs;
      CountsOnePerPeriod(s, k - 1);
      PeriodAfter(s, n);
      assert n + TypeIntervalMs == k * TypeIntervalMs;
    }
  }

  /** Each period publishes one more character while the counter is within
      the text: after `k` periods the prompt's prefix is `k` characters
      longer, less the one firing that publishes before counting. */
  lemma TypesOnePerPeriod(s: Section, k: nat)
    requires Inv(s) && s.timerDue == Some(s.now + TypeIntervalMs)
    requires s.i + k <= |Prompt| + 1
    ensures var r := Elapse(s, k * TypeIntervalMs);
      && r.i == s.i + k
      && r.displayText == Prompt[..if s.i + k == 0 then 0 else s.i + k - 1]
      && r.timerDue == Some(r.now + TypeIntervalMs)
  {
    CountsOnePerPeriod(s, k);
    ElapseInv(s, k * TypeIntervalMs);
    ShownPrefix(Elapse(s, k * TypeIntervalMs));
  }

  /** From the moment the section is seen: after `|Prompt| + 1` firings the
      whole prompt is shown with the interval still running; the next firing
      clears it without changing the text, and from then on nothing changes. */
  lemma TypingCompletes(s: Section, later: nat)
    requires Inv(s) && s.visible && s.i == 0 && s.timerDue == Some(s.now + TypeIntervalMs)
    ensures var done := Elapse(s, (|Prompt| + 1) * TypeIntervalMs);
      && done.displayText == Prompt
      && done.timerDue.Some?
      && Elapse(s, (|Prompt| + 2) * TypeIntervalMs) == done.(now := done.now + TypeIntervalMs, timerDue := None)
      && Elapse(s, (|Prompt| + 2) * TypeIntervalMs + later).displayText == Prompt
  {
    var n := (|Prompt| + 1) * TypeIntervalMs;
    var done := Elapse(s, n);
    TypesOnePerPeriod(s, |Prompt| + 1);
    OnePeriod(done);
    ElapseSplit(s, n, TypeIntervalMs);
    var stopped := Elapse(s, n + TypeIntervalMs);
    StoppedStaysStill(stopped, later);
    ElapseSplit(s, n + TypeIntervalMs, later);
  }

  lemma {:induction false} RunAppend(s: Section, a: seq<Event>, b: seq<Event>)
    ensures Run(s, a + b) == Run(Run(s, a), b)
    decreases |a|
  {
    if a == [] {
      assert a + b == b;
    } else {
      assert (a + b)[0] == a[0];
      assert (a + b)[1..] == a[1..] + b;
      RunAppend(Step(s, a[0]), a[1..], b);
    }
  }

  /** Until an intersecting entry arrives nothing is typed, whatever time
      passes and whichever tabs are clicked. */
  lemma {:induction false} NothingTypedWhileHidden(s: Section, trace: seq<Event>)
    requires Inv(s) && !s.visible
    requires forall k | 0 <= k < |trace| :: trace[k] != Intersection(true)
    ensures Run(s, trace).displayText == ""
    ensures !Run(s, trace).visible
    decreases |trace|
  {
    if trace != [] {
      assert trace[0] != Intersection(true);
      StepInv(s, trace[0]);
      NothingTypedWhileHidden(Step(s, trace[0]), trace[1..]);
    }
  }

  /** Mounted off-screen for any time, then seen: 640 ms later the heading
      reads the whole prompt. */
  lemma MountScenario(hidden: nat)
    ensures Run(Mount, [Wait(hidden), Intersection(true), Wait(640)]).displayText == "Are you"
  {
    MountInv();
    var a := Elapse(Mount, hidden);
    ElapseInv(Mount, hidden);
    var b := Intersect(a, true);
    TypingCompletes(b, 0);
    var w := [Intersection(true), Wait(640)];
    RunAppend(Mount, [Wait(hidden)], w);
    assert [Wait(hidden)] + w == [Wait(hidden), Intersection(true), Wait(640)];
    assert Run(a, w) == Run(b, [Wait(640)]);
  }

}
