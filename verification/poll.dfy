/**
 * The polling lifecycle: `update()` runs once at load, then every 1000 ms
 * from `setInterval`; the tick that sees `target - now <= 0` clears the
 * interval and runs `triggerCelebration`. Clock readings are integer
 * milliseconds passed in by the caller.
 */
module Poll {
  import opened Countdown
  import Celebration

  /**
   * The binding of `const timer` (script.js:135) as `update()` sees it:
   * not yet initialised (its temporal dead zone), holding a registered
   * interval, or holding one that has been cleared.
   */
  datatype TimerBinding = Uninitialised | Registered | Cleared

  /** How one run of `update()` ends: it throws, or it returns with `timer`'s binding and whether it celebrated. */
  datatype UpdateOutcome = Thrown | Returned(timer: TimerBinding, celebrated: bool)

  /**
   * `clearInterval(timer)`: reading a `const` before its declaration has
   * run throws a ReferenceError; otherwise the interval ends up cleared.
   */
  function ClearInterval(timer: TimerBinding): (o: UpdateOutcome)
    ensures o.Thrown? <==> timer == Uninitialised
    ensures o.Returned? ==> o.timer == Cleared && !o.celebrated
  {
    if timer == Uninitialised then Thrown else Returned(Cleared, false)
  }

  /**
   * The control flow of `update()` with `timer` bound as given: before the
   * target nothing happens; at or after it the interval is cleared and,
   * unless that threw, `triggerCelebration` runs.
   */
  function UpdateStep(target: int, now: int, timer: TimerBinding): (o: UpdateOutcome)
    ensures o.Thrown? <==> target - now <= 0 && timer == Uninitialised
    ensures o.Returned? ==> (o.celebrated <==> target - now <= 0)
    ensures o.Returned? && o.celebrated ==> o.timer == Cleared
    ensures o.Returned? && !o.celebrated ==> o.timer == timer
  {
    if target - now <= 0 then
      match ClearInterval(timer)
      case Thrown => Thrown
      case Returned(t, _) => Returned(t, true)
    else Returned(timer, false)
  }

  /**
   * What loading the script leaves behind: `timer`'s binding, the
   * celebration timers scheduled, and whether the script got past its
   * startup to the share button and the shared-link check.
   */
  datatype Load = Load(timer: TimerBinding, scheduled: seq<Celebration.Timer>, restOfScriptRuns: bool)

  /**
   * The startup as written: `update()` (line 134) while `timer` is still
   * uninitialised, then, if that returned, `setInterval` (line 135).
   */
  function LoadAsWritten(target: int, now: int): (l: Load)
    ensures l.timer != Cleared
    ensures l.restOfScriptRuns <==> l.timer == Registered
  {
    match UpdateStep(target, now, Uninitialised)
    case Thrown => Load(Uninitialised, [], false)
    case Returned(_, celebrated) =>
      Load(Registered, if celebrated then Celebration.NormalSchedule() else [], true)
  }

  /** The startup with the two lines swapped: `setInterval` first, then `update()`. */
  function LoadCorrected(target: int, now: int): (l: Load)
    ensures l.restOfScriptRuns
    ensures l.timer == Registered <==> l.scheduled == []
  {
    match UpdateStep(target, now, Registered)
    case Thrown => Load(Registered, [], false)
    case Returned(t, celebrated) =>
      Load(t, if celebrated then Celebration.NormalSchedule() else [], true)
  }

  /**
   * A page loaded at or after the target throws inside its first
   * `update()`: no interval, no celebration timers, and nothing after
   * line 134 runs.
   */
  lemma ExpiredLoadNeverCelebrates(target: int, now: int)
    requires target - now <= 0
    ensures LoadAsWritten(target, now) == Load(Uninitialised, [], false)
  {
    assert UpdateStep(target, now, Uninitialised) == Thrown;
  }

  /** Before the target the script as written behaves as intended. */
  lemma PendingLoadAsIntended(target: int, now: int)
    requires target - now > 0
    ensures LoadAsWritten(target, now) == LoadCorrected(target, now) == Load(Registered, [], true)
  {
    assert UpdateStep(target, now, Uninitialised) == Returned(Uninitialised, false);
    assert UpdateStep(target, now, Registered) == Returned(Registered, false);
  }

  /** With the lines swapped, an expired load celebrates once and leaves the interval cleared. */
  lemma CorrectedLoadCelebratesOnce(target: int, now: int)
    requires target - now <= 0
    ensures LoadCorrected(target, now) == Load(Cleared, Celebration.NormalSchedule(), true)
  {
    assert UpdateStep(target, now, Registered) == Returned(Cleared, true);
  }

  /**
   * The countdown's state: the target, the fields last shown, `timer`'s
   * binding and how often expiry has celebrated.
   */
  class Engine {
    const target: int
    var remaining: Remaining
    var timer: TimerBinding
    var celebrations: nat

    /** The interval runs exactly until the one celebration has fired. */
    ghost predicate Valid()
      reads this
    {
      WellFormed(remaining) && celebrations <= 1 && timer != Uninitialised
      && (timer == Registered <==> celebrations == 0)
    }

    /**
     * Loading the page with the corrected startup: the interval is
     * registered, then the first `update()` runs as a tick of it.
     */
    constructor (target: int, now: int, stage: Celebration.Stage)
      modifies stage
      ensures Valid() && this.target == target
      ensures Shows(remaining, Clamped(target, now))
      ensures timer == LoadCorrected(target, now).timer
      ensures stage.timers == old(stage.timers) + LoadCorrected(target, now).scheduled
      ensures celebrations == 1 <==> target - now <= 0
      ensures target - now <= 0 ==> !stage.hidden
      ensures target - now > 0 ==> stage.hidden == old(stage.hidden)
    {
      this.target := target;
      remaining := Remaining(0, 0, 0, 0);
      timer := Registered;
      celebrations := 0;
      new;
      Fire(now, stage);
    }

    /**
     * The interval firing at clock reading `now`: `update()` while the
     * interval is registered, nothing once it has been cleared.
     */
    method Fire(now: int, stage: Celebration.Stage)
      requires Valid()
      modifies this, stage
      ensures Valid()
      ensures old(timer) != Registered ==> unchanged(this) && unchanged(stage)
      ensures old(timer) == Registered ==> Shows(remaining, Clamped(target, now))
      ensures old(timer) == Registered && target - now <= 0 ==> remaining == Remaining(0, 0, 0, 0)
      ensures old(timer) == Registered ==>
                UpdateStep(target, now, old(timer)) == Returned(timer, celebrations > old(celebrations))
      ensures stage.timers == old(stage.timers)
                + if celebrations > old(celebrations) then Celebration.NormalSchedule() else []
      ensures celebrations > old(celebrations) ==> !stage.hidden
      ensures celebrations == old(celebrations) ==> stage.hidden == old(stage.hidden)
    {
      if timer != Registered {
        return;
      }
      remaining := Decompose(target, now);
      var outcome := UpdateStep(target, now, timer);
      if outcome.Returned? && outcome.celebrated {
        timer := outcome.timer;
        Celebration.TriggerCelebration(stage);
        celebrations := celebrations + 1;
      }
    }

    /**
     * The interval firing at each reading of `nows` in turn: the celebration
     * fires once at the first expired reading and never again.
     */
    method RunTicks(nows: seq<int>, stage: Celebration.Stage)
      requires Valid()
      modifies this, stage
      ensures Valid()
      ensures celebrations == 1 <==> old(celebrations) == 1 || exists i :: 0 <= i < |nows| && target - nows[i] <= 0
      ensures stage.timers == old(stage.timers)
                + if celebrations > old(celebrations) then Celebration.NormalSchedule() else []
      ensures celebrations > old(celebrations) ==> !stage.hidden
      ensures celebrations == old(celebrations) ==> stage.hidden == old(stage.hidden)
    {
      for i := 0 to |nows|
        invariant Valid()
        invariant celebrations == 1 <==> old(celebrations) == 1 || exists k :: 0 <= k < i && target - nows[k] <= 0
        invariant stage.timers == old(stage.timers)
                    + if celebrations > old(celebrations) then Celebration.NormalSchedule() else []
        invariant celebrations > old(celebrations) ==> !stage.hidden
        invariant celebrations == old(celebrations) ==> stage.hidden == old(stage.hidden)
      {
        Fire(nows[i], stage);
      }
    }
  }
}
