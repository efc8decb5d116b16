/** The content script's "count this page once" timer: active reading time
    is accumulated while the tab is visible and focused, and the page is
    saved once that time reaches the threshold. Every event handler takes
    the clock reading `now`. */
module Dwell {

  /** `MIN_READ_TIME`, in milliseconds. */
  const MinReadTime := 15000

  class ReadTimer {
    var activeTime: int
    var lastActiveStart: int
    var isTabActive: bool
    var hasBeenCounted: bool
    /** The once-a-second check is still scheduled (not yet cleared). */
    var intervalRunning: bool
    /** How many times the page has been sent for saving. */
    ghost var saves: nat

    /** The page is saved at most once: exactly once after it is counted. */
    ghost predicate Valid()
      reads this
    {
      saves == if hasBeenCounted then 1 else 0
    }

    /** The value `updateActiveTime()` would leave in `activeTime` at `now`. */
    function Accrued(now: int): int
      reads this
    {
      activeTime + if isTabActive then now - lastActiveStart else 0
    }

    /** Script start: nothing accumulated, the clock starts now, and the tab
        is active unless the document is hidden. */
    constructor (now: int, hidden: bool)
      ensures Valid()
      ensures activeTime == 0 && lastActiveStart == now && isTabActive == !hidden
      ensures !hasBeenCounted && intervalRunning
    {
      activeTime, lastActiveStart, isTabActive := 0, now, !hidden;
      hasBeenCounted, intervalRunning := false, true;
      saves := 0;
    }

    /** `updateActiveTime()`: while active, adds the time since
        `lastActiveStart`, which it does not move forward. */
    method UpdateActiveTime(now: int)
      modifies this`activeTime
      ensures activeTime == old(Accrued(now))
      ensures !isTabActive ==> activeTime == old(activeTime)
      ensures now >= lastActiveStart ==> activeTime >= old(activeTime)
    {
      if isTabActive {
        activeTime := activeTime + (now - lastActiveStart);
      }
    }

    /** The `visibilitychange` handler. */
    method OnVisibilityChange(hidden: bool, now: int)
      modifies this`activeTime, this`isTabActive, this`lastActiveStart
      ensures hidden ==> activeTime == old(Accrued(now)) && !isTabActive && lastActiveStart == old(lastActiveStart)
      ensures !hidden ==> activeTime == old(activeTime) && isTabActive && lastActiveStart == now
    {
      if hidden {
        UpdateActiveTime(now);
        isTabActive := false;
      } else {
        isTabActive := true;
        lastActiveStart := now;
      }
    }

    /** The window `blur` handler. */
    method OnBlur(now: int)
      modifies this`activeTime, this`isTabActive
      ensures activeTime == old(Accrued(now)) && !isTabActive
    {
      UpdateActiveTime(now);
      isTabActive := false;
    }

    /** The window `focus` handler; `hidden` is `document.hidden`. */
    method OnFocus(hidden: bool, now: int)
      modifies this`isTabActive, this`lastActiveStart
      ensures hidden ==> isTabActive == old(isTabActive) && lastActiveStart == old(lastActiveStart)
      ensures !hidden ==> isTabActive && lastActiveStart == now
    {
      if !hidden {
        isTabActive := true;
        lastActiveStart := now;
      }
    }

    /** `shouldSave()`: accrues time, then asks whether the threshold is
        reached and the page not yet counted. */
    method ShouldSave(now: int) returns (r: bool)
      modifies this`activeTime
      ensures activeTime == old(Accrued(now))
      ensures r <==> activeTime >= MinReadTime && !hasBeenCounted
      ensures hasBeenCounted ==> !r
    {
      UpdateActiveTime(now);
      r := activeTime >= MinReadTime && !hasBeenCounted;
    }

    /** `saveIfReady()`: sends the page for saving when `shouldSave()` says
        so, and marks it counted. */
    method SaveIfReady(now: int) returns (saved: bool)
      requires Valid()
      modifies this`activeTime, this`hasBeenCounted, this`saves
      ensures Valid()
      ensures activeTime == old(Accrued(now))
      ensures saved <==> activeTime >= MinReadTime && !old(hasBeenCounted)
      ensures hasBeenCounted == (old(hasBeenCounted) || saved)
      ensures saves == old(saves) + (if saved then 1 else 0)
    {
      saved := ShouldSave(now);
      if saved {
        saves := saves + 1;
        hasBeenCounted := true;
      }
    }

    /** One run of the interval callback: a scheduled check that saves
        clears the interval; a cleared interval no longer runs. */
    method OnTick(now: int) returns (saved: bool)
      requires Valid()
      modifies this
      ensures Valid()
      ensures !old(intervalRunning) ==> !saved && activeTime == old(activeTime) && hasBeenCounted == old(hasBeenCounted)
      ensures old(intervalRunning) ==> activeTime == old(Accrued(now))
      ensures saved <==> old(intervalRunning) && activeTime >= MinReadTime && !old(hasBeenCounted)
      ensures intervalRunning == (old(intervalRunning) && !saved)
      ensures hasBeenCounted == (old(hasBeenCounted) || saved)
      ensures lastActiveStart == old(lastActiveStart) && isTabActive == old(isTabActive)
    {
      saved := false;
      if intervalRunning {
        saved := SaveIfReady(now);
        if saved {
          intervalRunning := false;
        }
      }
    }

    /** The `beforeunload` and `pagehide` handlers: clear the interval, then
        save if ready. */
    method OnPageExit(now: int) returns (saved: bool)
      requires Valid()
      modifies this
      ensures Valid()
      ensures !intervalRunning
      ensures activeTime == old(Accrued(now))
      ensures saved <==> activeTime >= MinReadTime && !old(hasBeenCounted)
      ensures hasBeenCounted == (old(hasBeenCounted) || saved)
      ensures lastActiveStart == old(lastActiveStart) && isTabActive == old(isTabActive)
    {
      intervalRunning := false;
      saved := SaveIfReady(now);
    }

    /** The capturing `click` handler; `onWikiLink` says whether the target
        is inside an anchor whose `href` starts with `/wiki/`. Only then is
        `shouldSave()` consulted (and time accrued). */
    method OnClick(onWikiLink: bool, now: int) returns (saved: bool)
      requires Valid()
      modifies this
      ensures Valid()
      ensures !onWikiLink ==> !saved && activeTime == old(activeTime)
      ensures onWikiLink ==> activeTime == old(Accrued(now))
      ensures saved <==> onWikiLink && activeTime >= MinReadTime && !old(hasBeenCounted)
      ensures hasBeenCounted == (old(hasBeenCounted) || saved)
      ensures intervalRunning == (old(intervalRunning) && !saved)
      ensures lastActiveStart == old(lastActiveStart) && isTabActive == old(isTabActive)
    {
      saved := false;
      if onWikiLink {
        var r := ShouldSave(now);
        if r {
          saves := saves + 1;
          hasBeenCounted := true;
          intervalRunning := false;
          saved := true;
        }
      }
    }
  }

  /** Periodic checks add the whole time since the tab became active on
      every call, so with checks each second the threshold of 15 s is met
      after 5 s on the page (1 + 2 + 3 + 4 + 5 seconds). */
  method TicksOverCount()
  {
    var t := new ReadTimer(0, false);
    var s1 := t.OnTick(1000);
    var s2 := t.OnTick(2000);
    var s3 := t.OnTick(3000);
    var s4 := t.OnTick(4000);
    assert t.activeTime == 10000 && !s4;
    var s5 := t.OnTick(5000);
    assert t.activeTime == 15000 && s5;
    var s6 := t.OnPageExit(6000);
    assert !s6 && t.saves == 1;
  }
}
