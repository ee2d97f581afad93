/** The events timeline of app/events/page.tsx: the selected year, the auto-scroll that
    advances it, and the pause that user activity sets and inactivity clears. Timers are
    explicit: a pending timer is a flag, and its expiry is a method the environment calls. */
module Timeline {
  import opened Wrappers

  datatype Direction = Up | Down

  /** `navigateTimeline`'s index step: up unless at the first entry, down unless at the
      last, and otherwise stay. */
  function NavigateTarget(year: nat, dir: Direction, count: nat): (r: nat)
    requires year < count
    ensures r < count
    ensures dir == Up && year == 0 ==> r == year
    ensures dir == Down && year == count - 1 ==> r == year
    ensures dir == Up && year > 0 ==> r == year - 1
    ensures dir == Down && year < count - 1 ==> r == year + 1
  {
    if dir == Up && year > 0 then year - 1
    else if dir == Down && year < count - 1 then year + 1
    else year
  }

  /** The auto-scroll step: the next entry, or back to the first from the last. */
  function AutoAdvance(year: nat, count: nat): (r: nat)
    requires year < count
    ensures r < count
    ensures year < count - 1 ==> r == year + 1
    ensures year == count - 1 ==> r == 0
  {
    if year < count - 1 then year + 1 else 0
  }

  /** `k` auto-scroll steps from `year`. */
  function AdvanceTimes(year: nat, k: nat, count: nat): (r: nat)
    requires year < count
    ensures r < count
  {
    if k == 0 then year else AutoAdvance(AdvanceTimes(year, k - 1, count), count)
  }

  lemma {:induction false} AdvanceTimesAdd(year: nat, a: nat, b: nat, count: nat)
    requires year < count
    ensures AdvanceTimes(year, a + b, count) == AdvanceTimes(AdvanceTimes(year, a, count), b, count)
  {
    if b > 0 {
      AdvanceTimesAdd(year, a, b - 1, count);
    }
  }

  /** Before reaching the last entry, auto-scroll moves one entry per step. */
  lemma {:induction false} AdvanceTimesNoWrap(year: nat, k: nat, count: nat)
    requires year + k < count
    ensures AdvanceTimes(year, k, count) == year + k
  {
    if k > 0 {
      AdvanceTimesNoWrap(year, k - 1, count);
    }
  }

  /** Uninterrupted auto-scroll visits every entry in order and `count` steps bring it back
      to where it started. */
  lemma AdvanceTimesCycles(year: nat, count: nat)
    requires year < count
    ensures forall k :: 0 <= k < count - year ==> AdvanceTimes(year, k, count) == year + k
    ensures AdvanceTimes(year, count - year, count) == 0
    ensures AdvanceTimes(year, count, count) == year
  {
    forall k | 0 <= k < count - year
      ensures AdvanceTimes(year, k, count) == year + k
    {
      AdvanceTimesNoWrap(year, k, count);
    }
    AdvanceTimesNoWrap(year, count - 1 - year, count);
    assert AdvanceTimes(year, count - year, count) == 0;
    AdvanceTimesNoWrap(0, year, count);
    AdvanceTimesAdd(year, count - year, year, count);
  }

  /** The keyboard handler's mapping. */
  function KeyDirection(key: string): (r: Option<Direction>)
    ensures r == Some(Up) <==> key == "ArrowUp"
    ensures r == Some(Down) <==> key == "ArrowDown"
  {
    if key == "ArrowUp" then Some(Up) else if key == "ArrowDown" then Some(Down) else None
  }

  class TimelinePage {
    /** `timelineData.length`. */
    const count: nat
    var currentYear: nat
    var autoScrollPaused: bool
    var userActive: bool
    /** A pending auto-scroll timeout, and the year its callback captured. */
    var autoScrollTimer: bool
    var autoScrollTimerYear: nat
    /** A pending inactivity timeout. */
    var inactivityTimer: bool

    /** The index is a valid entry; a pending auto-scroll only exists while not paused, for
        the year on show; a pending inactivity timeout only while paused. */
    ghost predicate Valid()
      reads this
    {
      && currentYear < count
      && (autoScrollTimer ==> !autoScrollPaused && autoScrollTimerYear == currentYear)
      && (inactivityTimer ==> autoScrollPaused)
    }

    /** The state once the page has mounted: the auto-scroll effect arms a timeout, the
        activity effect then pauses and arms the inactivity timeout, and the re-render
        caused by the pause runs the auto-scroll effect's cleanup, which clears both. */
    constructor (count: nat)
      requires count >= 1
      ensures this.count == count && Valid()
      ensures currentYear == 0 && autoScrollPaused && userActive
      ensures !autoScrollTimer && !inactivityTimer
    {
      this.count := count;
      currentYear := 0;
      autoScrollPaused := true;
      userActive := true;
      autoScrollTimer := false;
      autoScrollTimerYear := 0;
      inactivityTimer := false;
    }

    /** `resetAutoScrollTimer` as a handler created at a render with `paused0` and `year0`
        sees it: clear the pending timeout, and arm a new one unless paused. */
    method ResetAutoScrollTimer(paused0: bool, year0: nat)
      modifies this
      ensures autoScrollTimer == !paused0
      ensures !paused0 ==> autoScrollTimerYear == year0
      ensures paused0 ==> autoScrollTimerYear == old(autoScrollTimerYear)
      ensures currentYear == old(currentYear) && autoScrollPaused == old(autoScrollPaused)
      ensures userActive == old(userActive) && inactivityTimer == old(inactivityTimer)
    {
      autoScrollTimer := false;
      if !paused0 {
        autoScrollTimer := true;
        autoScrollTimerYear := year0;
      }
    }

    /** `registerUserActivity`: active and paused, with a fresh inactivity timeout. */
    method RegisterUserActivity()
      modifies this
      ensures userActive && autoScrollPaused && inactivityTimer
      ensures currentYear == old(currentYear)
      ensures autoScrollTimer == old(autoScrollTimer) && autoScrollTimerYear == old(autoScrollTimerYear)
    {
      userActive := true;
      autoScrollPaused := true;
      inactivityTimer := true;
    }

    /** The commit after a handler: when `currentYear` or `autoScrollPaused` changed, the
        auto-scroll effect's cleanup clears both timeouts and the effect re-arms the
        auto-scroll one unless paused. */
    method AfterRender(year0: nat, paused0: bool)
      modifies this
      ensures var changed := currentYear != year0 || autoScrollPaused != paused0;
        && (changed ==> autoScrollTimer == !autoScrollPaused && !inactivityTimer)
        && (changed && !autoScrollPaused ==> autoScrollTimerYear == currentYear)
        && (!changed ==> autoScrollTimer == old(autoScrollTimer) && inactivityTimer == old(inactivityTimer)
                         && autoScrollTimerYear == old(autoScrollTimerYear))
      ensures currentYear == old(currentYear) && autoScrollPaused == old(autoScrollPaused)
      ensures userActive == old(userActive)
    {
      if currentYear != year0 || autoScrollPaused != paused0 {
        autoScrollTimer := false;
        inactivityTimer := false;
        ResetAutoScrollTimer(autoScrollPaused, currentYear);
      }
    }

    /** `navigateTimeline(dir)`: the index moves one step if it can; the page is paused and
        active with no auto-scroll pending. The new inactivity timeout survives only when
        nothing the auto-scroll effect watches changed. */
    method NavigateTimeline(dir: Direction)
      requires Valid()
      modifies this
      ensures Valid()
      ensures currentYear == NavigateTarget(old(currentYear), dir, count)
      ensures autoScrollPaused && userActive && !autoScrollTimer
      ensures inactivityTimer == (currentYear == old(currentYear) && old(autoScrollPaused))
    {
      var year0, paused0 := currentYear, autoScrollPaused;
      currentYear := NavigateTarget(year0, dir, count);
      ResetAutoScrollTimer(paused0, year0);
      RegisterUserActivity();
      AfterRender(year0, paused0);
    }

    /** `handleYearClick(index)` on an entry of the sidebar. */
    method HandleYearClick(index: nat)
      requires Valid() && index < count
      modifies this
      ensures Valid()
      ensures currentYear == index
      ensures autoScrollPaused && userActive && !autoScrollTimer
      ensures inactivityTimer == (index == old(currentYear) && old(autoScrollPaused))
    {
      var year0, paused0 := currentYear, autoScrollPaused;
      currentYear := index;
      ResetAutoScrollTimer(paused0, year0);
      RegisterUserActivity();
      AfterRender(year0, paused0);
    }

    /** A mouse, touch, scroll or key event: active and paused. Pausing a running
        auto-scroll re-renders, and that cleanup also clears the new inactivity timeout. */
    method UserActivity()
      requires Valid()
      modifies this
      ensures Valid()
      ensures currentYear == old(currentYear)
      ensures autoScrollPaused && userActive && !autoScrollTimer
      ensures inactivityTimer == old(autoScrollPaused)
    {
      var year0, paused0 := currentYear, autoScrollPaused;
      RegisterUserActivity();
      AfterRender(year0, paused0);
    }

    /** A key press: the activity listener, then for an arrow key the keyboard listener,
        both within one render. */
    method KeyDown(key: string)
      requires Valid()
      modifies this
      ensures Valid()
      ensures currentYear == match KeyDirection(key)
        case Some(dir) => NavigateTarget(old(currentYear), dir, count)
        case None => old(currentYear)
      ensures autoScrollPaused && userActive && !autoScrollTimer
      ensures inactivityTimer == (currentYear == old(currentYear) && old(autoScrollPaused))
    {
      var year0, paused0 := currentYear, autoScrollPaused;
      RegisterUserActivity();
      match KeyDirection(key) {
        case Some(dir) =>
          currentYear := NavigateTarget(year0, dir, count);
          ResetAutoScrollTimer(paused0, year0);
          RegisterUserActivity();
        case None =>
      }
      AfterRender(year0, paused0);
    }

    /** The inactivity timeout fires: inactive and unpaused, and the re-render arms the
        auto-scroll for the year on show. */
    method InactivityTimeout()
      requires Valid() && inactivityTimer
      modifies this
      ensures Valid()
      ensures currentYear == old(currentYear)
      ensures !autoScrollPaused && !userActive
      ensures autoScrollTimer && !inactivityTimer
    {
      var year0, paused0 := currentYear, autoScrollPaused;
      inactivityTimer := false;
      userActive := false;
      autoScrollPaused := false;
      AfterRender(year0, paused0);
    }

    /** The auto-scroll timeout fires: the next year, or the first after the last. The
        re-render arms the next timeout, unless the year did not change (a single entry),
        which ends auto-scrolling. */
    method AutoScrollTimeout()
      requires Valid() && autoScrollTimer
      modifies this
      ensures Valid()
      ensures currentYear == AutoAdvance(old(currentYear), count)
      ensures autoScrollPaused == old(autoScrollPaused) && userActive == old(userActive)
      ensures autoScrollTimer == (count > 1)
      ensures !inactivityTimer
    {
      var year0, paused0 := currentYear, autoScrollPaused;
      autoScrollTimer := false;
      if autoScrollTimerYear < count - 1 {
        currentYear := currentYear + 1;
      } else {
        currentYear := 0;
      }
      AfterRender(year0, paused0);
    }
  }
}
