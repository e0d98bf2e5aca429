/**
 * The celebration schedules (`triggerCelebration`, `bigCelebration`) as
 * lists of (delay, effect) timers, the particle counts and lifetimes of
 * `createFireworkBurst`, `createSparkColumn` and the confetti callback, and
 * the celebration container's visibility. Every `Math.random()` draw is a
 * `real` parameter in [0, 1).
 */
module Celebration {
  import Audio

  /** What a timer does when it fires. */
  datatype Effect = Burst | SparkColumn | Confetti | Clear(stopAudio: bool)

  /** One `setTimeout(callback, delay)` call, delay in milliseconds. */
  datatype Timer = Timer(delay: nat, effect: Effect)

  predicate IsSpawn(e: Effect) { !e.Clear? }

  predicate IsDraw(u: real) { 0.0 <= u < 1.0 }

  const NormalClearDelay: nat := 8000
  const BigClearDelay: nat := 9000

  /** `for (let i = 0; i < n; i++) setTimeout(..., i * step)`. */
  function Spaced(n: nat, step: nat, e: Effect): (r: seq<Timer>)
    ensures |r| == n
    ensures forall i :: 0 <= i < n ==> r[i] == Timer(i * step, e)
  {
    seq(n, (i: nat) => Timer(i * step, e))
  }

  /** The timers `triggerCelebration` schedules. */
  function NormalSchedule(): (s: seq<Timer>)
    ensures |s| == 15
    ensures forall i :: 0 <= i < 6 ==> s[i] == Timer(i * 500, Burst)
    ensures forall i :: 6 <= i < 14 ==> s[i] == Timer((i - 6) * 300, SparkColumn)
    ensures s[14] == Timer(NormalClearDelay, Clear(false))
  {
    Spaced(6, 500, Burst) + Spaced(8, 300, SparkColumn) + [Timer(NormalClearDelay, Clear(false))]
  }

  /** The timers `bigCelebration` schedules (after starting the sound). */
  function BigSchedule(): (s: seq<Timer>)
    ensures |s| == 53
    ensures forall i :: 0 <= i < 12 ==> s[i] == Timer(i * 200, Burst)
    ensures forall i :: 12 <= i < 52 ==> s[i] == Timer((i - 12) * 60, Confetti)
    ensures s[52] == Timer(BigClearDelay, Clear(true))
  {
    Spaced(12, 200, Burst) + Spaced(40, 60, Confetti) + [Timer(BigClearDelay, Clear(true))]
  }

  // ---- particle counts and lifetimes ----

  /** `24 + Math.floor(Math.random() * 24)` particles per burst. */
  function BurstCount(u: real): (n: nat)
    requires IsDraw(u)
    ensures 24 <= n <= 47
  {
    24 + (u * 24.0).Floor
  }

  /** `6 + Math.floor(Math.random() * 6)` sparks per column. */
  function SparkCount(u: real): (n: nat)
    requires IsDraw(u)
    ensures 6 <= n <= 11
  {
    6 + (u * 6.0).Floor
  }

  /** Every count from 24 to 47 can occur. */
  lemma BurstCountOnto(n: nat)
    requires 24 <= n <= 47
    ensures exists u :: IsDraw(u) && BurstCount(u) == n
  {
    var u := (n - 24) as real / 24.0;
    assert u * 24.0 == (n - 24) as real;
    assert IsDraw(u) && BurstCount(u) == n;
  }

  /** Every count from 6 to 11 can occur. */
  lemma SparkCountOnto(n: nat)
    requires 6 <= n <= 11
    ensures exists u :: IsDraw(u) && SparkCount(u) == n
  {
    var u := (n - 6) as real / 6.0;
    assert u * 6.0 == (n - 6) as real;
    assert IsDraw(u) && SparkCount(u) == n;
  }

  /** The exclusive upper bound, over exact reals, on how long a spawned particle lives. */
  function MaxLifetime(e: Effect): nat {
    match e
    case Burst => 1500
    case SparkColumn => 1800
    case Confetti => 2400
    case Clear(_) => 0
  }

  /** A particle's `setTimeout(() => el.remove(), ...)` delay for a random draw. */
  function Lifetime(e: Effect, u: real): (l: real)
    requires IsSpawn(e) && IsDraw(u)
    ensures l < MaxLifetime(e) as real
    ensures e == Burst ==> 1100.0 <= l
    ensures e == SparkColumn ==> 1200.0 <= l
    ensures e == Confetti ==> 1600.0 <= l
  {
    match e
    case Burst => 1100.0 + u * 400.0
    case SparkColumn => 1200.0 + u * 600.0
    case Confetti => 1600.0 + u * 800.0
  }

  /**
   * `createFireworkBurst`: one particle per iteration, each with its own
   * removal delay; `lifeDraws` holds the lifetime draw of each particle.
   */
  method CreateFireworkBurst(countDraw: real, lifeDraws: seq<real>) returns (lifetimes: seq<real>)
    requires IsDraw(countDraw)
    requires |lifeDraws| == BurstCount(countDraw)
    requires forall i :: 0 <= i < |lifeDraws| ==> IsDraw(lifeDraws[i])
    ensures 24 <= |lifetimes| <= 47 && |lifetimes| == |lifeDraws|
    ensures forall i :: 0 <= i < |lifetimes| ==> lifetimes[i] == Lifetime(Burst, lifeDraws[i])
    ensures forall i :: 0 <= i < |lifetimes| ==> 1100.0 <= lifetimes[i] < 1500.0
  {
    var count := BurstCount(countDraw);
    lifetimes := [];
    for i := 0 to count
      invariant |lifetimes| == i
      invariant forall k :: 0 <= k < i ==> lifetimes[k] == Lifetime(Burst, lifeDraws[k])
    {
      lifetimes := lifetimes + [1100.0 + lifeDraws[i] * 400.0];
    }
  }

  /** `createSparkColumn`, likewise. */
  method CreateSparkColumn(countDraw: real, lifeDraws: seq<real>) returns (lifetimes: seq<real>)
    requires IsDraw(countDraw)
    requires |lifeDraws| == SparkCount(countDraw)
    requires forall i :: 0 <= i < |lifeDraws| ==> IsDraw(lifeDraws[i])
    ensures 6 <= |lifetimes| <= 11 && |lifetimes| == |lifeDraws|
    ensures forall i :: 0 <= i < |lifetimes| ==> lifetimes[i] == Lifetime(SparkColumn, lifeDraws[i])
    ensures forall i :: 0 <= i < |lifetimes| ==> 1200.0 <= lifetimes[i] < 1800.0
  {
    var count := SparkCount(countDraw);
    lifetimes := [];
    for i := 0 to count
      invariant |lifetimes| == i
      invariant forall k :: 0 <= k < i ==> lifetimes[k] == Lifetime(SparkColumn, lifeDraws[k])
    {
      lifetimes := lifetimes + [1200.0 + lifeDraws[i] * 600.0];
    }
  }

  // ---- properties of the schedules ----

  /** How many timers of a schedule have the given effect. */
  function Count(s: seq<Timer>, e: Effect): nat {
    if s == [] then 0 else (if s[0].effect == e then 1 else 0) + Count(s[1..], e)
  }

  lemma {:induction false} CountAppend(a: seq<Timer>, b: seq<Timer>, e: Effect)
    ensures Count(a + b, e) == Count(a, e) + Count(b, e)
  {
    if a == [] {
      assert a + b == b;
    } else {
      assert (a + b)[1..] == a[1..] + b;
      CountAppend(a[1..], b, e);
    }
  }

  lemma {:induction false} CountSpaced(n: nat, step: nat, f: Effect, e: Effect)
    ensures Count(Spaced(n, step, f), e) == if f == e then n else 0
  {
    if n > 0 {
      var s := Spaced(n, step, f);
      assert s == Spaced(n - 1, step, f) + [Timer((n - 1) * step, f)];
      CountAppend(Spaced(n - 1, step, f), [Timer((n - 1) * step, f)], e);
      CountSpaced(n - 1, step, f, e);
    }
  }

  /**
   * The last timer is the only clear, and every particle a spawn creates is
   * removed by its own timer before that clear fires.
   */
  predicate ClearsLast(s: seq<Timer>, clearDelay: nat) {
    |s| > 0 && s[|s| - 1].effect.Clear? && s[|s| - 1].delay == clearDelay
    && (forall i :: 0 <= i < |s| - 1 ==> IsSpawn(s[i].effect))
    && (forall i :: 0 <= i < |s| - 1 ==> s[i].delay + MaxLifetime(s[i].effect) < clearDelay)
  }

  /** The shape both celebrations share: two spaced runs of spawns, then one timer. */
  function TwoRunsThen(n1: nat, step1: nat, e1: Effect, n2: nat, step2: nat, e2: Effect, last: Timer): seq<Timer> {
    Spaced(n1, step1, e1) + Spaced(n2, step2, e2) + [last]
  }

  lemma TwoRunsThenCount(n1: nat, step1: nat, e1: Effect, n2: nat, step2: nat, e2: Effect, last: Timer, e: Effect)
    ensures Count(TwoRunsThen(n1, step1, e1, n2, step2, e2, last), e)
         == (if e1 == e then n1 else 0) + (if e2 == e then n2 else 0) + (if last.effect == e then 1 else 0)
  {
    var a, b := Spaced(n1, step1, e1), Spaced(n2, step2, e2);
    CountAppend(a + b, [last], e);
    CountAppend(a, b, e);
    CountSpaced(n1, step1, e1, e);
    CountSpaced(n2, step2, e2, e);
  }

  lemma MulMono(i: nat, n: nat, step: nat)
    requires i <= n
    ensures i * step <= n * step
  {
    var k: nat := n - i;
    assert n * step == i * step + k * step;
  }

  /**
   * The runs end early enough: the last spawn of each run plus its longest
   * particle lifetime comes before the final clear.
   */
  lemma TwoRunsThenClearsLast(n1: nat, step1: nat, e1: Effect, n2: nat, step2: nat, e2: Effect, clearDelay: nat, stop: bool)
    requires IsSpawn(e1) && IsSpawn(e2) && 0 < n1 && 0 < n2
    requires (n1 - 1) * step1 + MaxLifetime(e1) < clearDelay
    requires (n2 - 1) * step2 + MaxLifetime(e2) < clearDelay
    ensures ClearsLast(TwoRunsThen(n1, step1, e1, n2, step2, e2, Timer(clearDelay, Clear(stop))), clearDelay)
  {
    var s := TwoRunsThen(n1, step1, e1, n2, step2, e2, Timer(clearDelay, Clear(stop)));
    forall i | 0 <= i < |s| - 1
      ensures IsSpawn(s[i].effect) && s[i].delay + MaxLifetime(s[i].effect) < clearDelay
    {
      if i < n1 {
        assert s[i] == Timer(i * step1, e1);
        MulMono(i, n1 - 1, step1);
      } else {
        assert s[i] == Timer((i - n1) * step2, e2);
        MulMono(i - n1, n2 - 1, step2);
      }
    }
  }

  /** 6 bursts every 500 ms, 8 spark columns every 300 ms, one clear at 8000 ms. */
  lemma NormalScheduleShape()
    ensures Count(NormalSchedule(), Burst) == 6
    ensures Count(NormalSchedule(), SparkColumn) == 8
    ensures Count(NormalSchedule(), Confetti) == 0
    ensures Count(NormalSchedule(), Clear(false)) == 1
    ensures ClearsLast(NormalSchedule(), NormalClearDelay)
  {
    var last := Timer(NormalClearDelay, Clear(false));
    assert NormalSchedule() == TwoRunsThen(6, 500, Burst, 8, 300, SparkColumn, last);
    TwoRunsThenCount(6, 500, Burst, 8, 300, SparkColumn, last, Burst);
    TwoRunsThenCount(6, 500, Burst, 8, 300, SparkColumn, last, SparkColumn);
    TwoRunsThenCount(6, 500, Burst, 8, 300, SparkColumn, last, Confetti);
    TwoRunsThenCount(6, 500, Burst, 8, 300, SparkColumn, last, Clear(false));
    TwoRunsThenClearsLast(6, 500, Burst, 8, 300, SparkColumn, NormalClearDelay, false);
  }

  /** 12 bursts every 200 ms, 40 confetti every 60 ms, one clear-and-stop at 9000 ms. */
  lemma BigScheduleShape()
    ensures Count(BigSchedule(), Burst) == 12
    ensures Count(BigSchedule(), Confetti) == 40
    ensures Count(BigSchedule(), SparkColumn) == 0
    ensures Count(BigSchedule(), Clear(true)) == 1
    ensures ClearsLast(BigSchedule(), BigClearDelay)
  {
    var last := Timer(BigClearDelay, Clear(true));
    assert BigSchedule() == TwoRunsThen(12, 200, Burst, 40, 60, Confetti, last);
    TwoRunsThenCount(12, 200, Burst, 40, 60, Confetti, last, Burst);
    TwoRunsThenCount(12, 200, Burst, 40, 60, Confetti, last, Confetti);
    TwoRunsThenCount(12, 200, Burst, 40, 60, Confetti, last, SparkColumn);
    TwoRunsThenCount(12, 200, Burst, 40, 60, Confetti, last, Clear(true));
    TwoRunsThenClearsLast(12, 200, Burst, 40, 60, Confetti, BigClearDelay, true);
  }

  /**
   * Whatever the random lifetime, a particle spawned by a timer of a
   * schedule that ClearsLast is removed before the final clear.
   */
  lemma ParticleGoneBeforeClear(s: seq<Timer>, clearDelay: nat, i: nat, u: real)
    requires ClearsLast(s, clearDelay)
    requires i < |s| - 1 && IsDraw(u)
    ensures s[i].delay as real + Lifetime(s[i].effect, u) < clearDelay as real
  {
  }

  // ---- the celebration container and the host's timer queue ----

  /** `aria-hidden` of the celebration container and the log of every timer scheduled so far. */
  class Stage {
    var hidden: bool
    var timers: seq<Timer>

    constructor ()
      ensures hidden && timers == []
    {
      hidden := true;
      timers := [];
    }
  }

  /** `triggerCelebration`: show the container and schedule the normal timers. */
  method TriggerCelebration(stage: Stage)
    modifies stage
    ensures !stage.hidden
    ensures stage.timers == old(stage.timers) + NormalSchedule()
  {
    stage.hidden := false;
    ghost var before := stage.timers;
    for i := 0 to 6
      invariant !stage.hidden
      invariant stage.timers == before + Spaced(i, 500, Burst)
    {
      stage.timers := stage.timers + [Timer(i * 500, Burst)];
    }
    for i := 0 to 8
      invariant !stage.hidden
      invariant stage.timers == before + Spaced(6, 500, Burst) + Spaced(i, 300, SparkColumn)
    {
      stage.timers := stage.timers + [Timer(i * 300, SparkColumn)];
    }
    stage.timers := stage.timers + [Timer(NormalClearDelay, Clear(false))];
  }

  /**
   * `bigCelebration`: start the sound, then schedule the big timers. It
   * does not change `aria-hidden`.
   */
  method BigCelebration(stage: Stage, audio: Audio.FireAudio, creationFails: bool, playAllowed: bool)
    requires audio.Valid()
    modifies stage, audio
    ensures audio.Valid()
    ensures audio.handle == Audio.Played(Audio.Ensured(old(audio.handle), creationFails), playAllowed)
    ensures stage.hidden == old(stage.hidden)
    ensures stage.timers == old(stage.timers) + BigSchedule()
  {
    audio.Start(creationFails, playAllowed);
    ghost var before, sound, made := stage.timers, audio.handle, audio.created;
    for i := 0 to 12
      invariant audio.handle == sound && audio.created == made && stage.hidden == old(stage.hidden)
      invariant stage.timers == before + Spaced(i, 200, Burst)
    {
      stage.timers := stage.timers + [Timer(i * 200, Burst)];
    }
    for i := 0 to 40
      invariant audio.handle == sound && audio.created == made && stage.hidden == old(stage.hidden)
      invariant stage.timers == before + Spaced(12, 200, Burst) + Spaced(i, 60, Confetti)
    {
      stage.timers := stage.timers + [Timer(i * 60, Confetti)];
    }
    stage.timers := stage.timers + [Timer(BigClearDelay, Clear(true))];
  }

  /** The final clear's callback: hide the container, and stop the sound after a big celebration. */
  method RunClear(stage: Stage, audio: Audio.FireAudio, stopAudio: bool)
    requires audio.Valid()
    modifies stage, audio
    ensures audio.Valid()
    ensures stage.hidden && stage.timers == old(stage.timers)
    ensures audio.handle == if stopAudio then Audio.Stopped(old(audio.handle)) else old(audio.handle)
    ensures audio.created == old(audio.created)
  {
    stage.hidden := true;
    if stopAudio {
      audio.Stop();
    }
  }
}
