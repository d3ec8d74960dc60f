/** The QuickLinks section: the "Are you" typewriter started by the viewport
    latch, and the user-type tab selector whose active id labels the heading.

    The typewriter effect depends on `isVisible` only.  When the latch sets it,
    the effect starts an 80 ms interval with a local counter `i` from 0; each
    firing publishes `text.slice(0, i)` and increments `i` while
    `i <= text.length`, and otherwise clears the interval. */
module QuickLinks {
  import opened Wrappers
  import Viewport

  const Prompt: string := "Are you"
  const TypeIntervalMs: int := 80

  datatype UserType = UserType(id: string, caption: string)  // `label` is a Dafny keyword

  const UserTypes: seq<UserType> := [
    UserType("incoming", "Incoming Student"),
    UserType("current", "Current Student"),
    UserType("faculty", "Faculty"),
    UserType("researcher", "Researcher"),
    UserType("alumni", "Alumni")
  ]

  /** A tab button: the buttons are rendered by mapping over `UserTypes`. */
  type TabIndex = k: int | 0 <= k < |UserTypes|

  datatype Section = Section(
    now: int,               // the clock, in milliseconds
    visible: bool,          // `isVisible`
    displayText: string,    // `displayText`
    i: nat,                 // the typewriter effect's counter
    timerDue: Option<int>,  // next firing of the typewriter interval, while it runs
    activeUserType: string) // `activeUserType`

  const Mount: Section := Section(0, false, "", 0, None, "incoming")

  /** `id` is the id of one of the declared user types. */
  predicate IsDeclared(id: string) {
    exists k | 0 <= k < |UserTypes| :: UserTypes[k].id == id
  }

  /** The invariant of every reachable state. */
  predicate Inv(s: Section) {
    // nothing is typed before the section is seen
    && (!s.visible ==> s.i == 0 && s.displayText == "" && s.timerDue.None?)
    && s.i <= |Prompt| + 1
    // the text shown is the prefix published by the last firing
    && s.displayText == Prompt[..if s.i == 0 then 0 else s.i - 1]
    // a running interval fires within one period
    && (s.timerDue.Some? ==> s.visible && s.now < s.timerDue.value <= s.now + TypeIntervalMs)
    // a seen section's interval has stopped only after the counter ran past the text
    && (s.visible && s.timerDue.None? ==> s.i == |Prompt| + 1)
    && IsDeclared(s.activeUserType)
  }

  lemma MountInv()
    ensures Inv(Mount)
  {
    assert UserTypes[0].id == "incoming";
  }

  /** `userTypes.find(u => u.id === id)`: the first user type with that id. */
  function Find(types: seq<UserType>, id: string): (r: Option<UserType>)
    ensures r.Some? <==> exists k | 0 <= k < |types| :: types[k].id == id
    ensures r.Some? ==> r.value in types && r.value.id == id
    // the match returned is the first one
    ensures r.Some? ==> exists k | 0 <= k < |types| ::
              && r.value == types[k]
              && forall j | 0 <= j < k :: types[j].id != id
  {
    if types == [] then None
    else if types[0].id == id then Some(types[0])
    else
      assert forall k | 1 <= k < |types| :: types[k] == types[1..][k - 1];
      Find(types[1..], id)
  }

  /** The declared ids are pairwise distinct. */
  lemma IdsDistinct()
    ensures forall j, k | 0 <= j < k < |UserTypes| :: UserTypes[j].id != UserTypes[k].id
  {
  }

  /** A tab button's `onClick`: `setActiveUserType(type.id)`. */
  function SelectTab(s: Section, k: TabIndex): (r: Section)
    // nothing but the active id changes
    ensures r.(activeUserType := s.activeUserType) == s
    ensures IsDeclared(r.activeUserType)
    // the heading's lookup finds exactly the clicked tab
    ensures Find(UserTypes, r.activeUserType) == Some(UserTypes[k])
    ensures Inv(s) ==> Inv(r)
  {
    IdsDistinct();
    s.(activeUserType := UserTypes[k].id)
  }

  /** The tabs rendered as active: those whose id equals `activeUserType`. */
  function ActiveTabs(active: string): set<TabIndex>
  {
    set k: TabIndex | UserTypes[k].id == active
  }

  /** Exactly one tab is rendered as active, and the heading's lookup succeeds
      with that tab's user type. */
  lemma ExactlyOneActiveTab(s: Section)
    requires Inv(s)
    ensures exists k: TabIndex ::
              && ActiveTabs(s.activeUserType) == {k}
              && Find(UserTypes, s.activeUserType) == Some(UserTypes[k])
  {
    IdsDistinct();
    var k: TabIndex :| UserTypes[k].id == s.activeUserType;
    assert ActiveTabs(s.activeUserType) == {k};
  }

  /** The IntersectionObserver callback; the first intersecting entry re-runs
      the typewriter effect, which starts the interval with `i = 0`. */
  function Intersect(s: Section, isIntersecting: bool): (r: Section)
    ensures r.visible <==> s.visible || isIntersecting
    ensures s.visible ==> r == s
    ensures !s.visible && isIntersecting ==> r.i == 0 && r.timerDue == Some(s.now + TypeIntervalMs)
    ensures r.displayText == s.displayText && r.activeUserType == s.activeUserType
    ensures Inv(s) ==> Inv(r)
  {
    if !s.visible && Viewport.Observe(s.visible, isIntersecting) then
      s.(visible := true, i := 0, timerDue := Some(s.now + TypeIntervalMs))
    else s
  }

  /** One firing of the typewriter interval at the current time. */
  function Type(s: Section): (r: Section)
    ensures r.now == s.now && r.visible == s.visible && r.activeUserType == s.activeUserType
    // while the counter is within the text the prefix grows by one character
    ensures s.i <= |Prompt| ==> r.displayText == Prompt[..s.i] && r.i == s.i + 1
    // past the text the interval is cleared and nothing else changes
    ensures s.i > |Prompt| ==> r == s.(timerDue := None)
  {
    if s.i <= |Prompt| then
      s.(displayText := Prompt[..s.i], i := s.i + 1, timerDue := Some(s.now + TypeIntervalMs))
    else s.(timerDue := None)
  }

  /** One millisecond passes. */
  function Tick(s: Section): (r: Section)
    ensures r.now == s.now + 1 && r.visible == s.visible && r.activeUserType == s.activeUserType
    // the interval fires only at its due time; otherwise only the clock moves
    ensures s.timerDue != Some(r.now) ==> r == s.(now := s.now + 1)
  {
    var s1 := s.(now := s.now + 1);
    if s.timerDue == Some(s1.now) then Type(s1) else s1
  }

  /** One millisecond keeps the invariant, types nothing before the section
      is seen, and never shortens the text shown. */
  lemma TickInv(s: Section)
    requires Inv(s)
    ensures Inv(Tick(s))
    ensures !s.visible ==> Tick(s) == s.(now := s.now + 1)
    ensures |s.displayText| <= |Tick(s).displayText|
  {
  }

  /** `d` milliseconds pass with no user interaction. */
  function Elapse(s: Section, d: nat): (r: Section)
    ensures r.now == s.now + d && r.visible == s.visible && r.activeUserType == s.activeUserType
    decreases d
  {
    if d == 0 then s else Elapse(Tick(s), d - 1)
  }

  /** Time alone keeps the invariant, types nothing while the section is
      hidden, and never shortens the text shown. */
  lemma {:induction false} ElapseInv(s: Section, d: nat)
    requires Inv(s)
    ensures Inv(Elapse(s, d))
    ensures !s.visible ==> Elapse(s, d) == s.(now := s.now + d)
    ensures |s.displayText| <= |Elapse(s, d).displayText|
    decreases d
  {
    if d > 0 {
      TickInv(s);
      ElapseInv(Tick(s), d - 1);
    }
  }

  datatype Event =
    | Wait(ms: nat)
    | Intersection(isIntersecting: bool)
    | TabClick(index: TabIndex)

  function Step(s: Section, e: Event): (r: Section)
    ensures s.visible ==> r.visible
    // a tab click leaves the typewriter alone, and time leaves the tab alone
    ensures e.TabClick? ==> r.(activeUserType := s.activeUserType) == s
    ensures !e.TabClick? ==> r.activeUserType == s.activeUserType
  {
    match e
    case Wait(ms) => Elapse(s, ms)
    case Intersection(b) => Intersect(s, b)
    case TabClick(k) => SelectTab(s, k)
  }

  lemma StepInv(s: Section, e: Event)
    requires Inv(s)
    ensures Inv(Step(s, e))
  {
    if e.Wait? {
      ElapseInv(s, e.ms);
    }
  }

  function Run(s: Section, trace: seq<Event>): (r: Section)
    ensures s.visible ==> r.visible
    decreases |trace|
  {
    if trace == [] then s else Run(Step(s, trace[0]), trace[1..])
  }

  /** Every trace of events keeps the invariant. */
  lemma {:induction false} RunInv(s: Section, trace: seq<Event>)
    requires Inv(s)
    ensures Inv(Run(s, trace))
    decreases |trace|
  {
    if trace != [] {
      StepInv(s, trace[0]);
      RunInv(Step(s, trace[0]), trace[1..]);
    }
  }

}
