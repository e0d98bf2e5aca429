/**
 * The countdown decomposition of `update`: the remaining milliseconds,
 * clamped at zero, split greedily into days, hours, minutes and seconds by
 * floor division, each field rendered through `pad`.
 */
module Countdown {
  const MsPerSecond: nat := 1000
  const MsPerMinute: nat := 1000 * 60
  const MsPerHour: nat := 1000 * 60 * 60
  const MsPerDay: nat := 1000 * 60 * 60 * 24

  /** The four displayed fields. */
  datatype Remaining = Remaining(days: nat, hours: nat, minutes: nat, seconds: nat)

  predicate WellFormed(r: Remaining) {
    r.hours < 24 && r.minutes < 60 && r.seconds < 60
  }

  /** The milliseconds the four fields stand for. */
  function Millis(r: Remaining): nat {
    r.days * MsPerDay + r.hours * MsPerHour + r.minutes * MsPerMinute + r.seconds * MsPerSecond
  }

  /** `Math.max(0, target - now)`. */
  function Clamped(target: int, now: int): (d: nat)
    ensures d == 0 <==> target - now <= 0
    ensures d >= target - now
    ensures target - now > 0 ==> d == target - now
  {
    if target - now > 0 then target - now else 0
  }

  /** `r` shows `d` milliseconds truncated to the whole second. */
  predicate Shows(r: Remaining, d: nat) {
    WellFormed(r) && Millis(r) <= d < Millis(r) + MsPerSecond
  }

  /**
   * Lines 46-54 of `update`: `diff` is reduced after each floor division.
   * The fields are in range and put back together give `diff` rounded down
   * to the second; with an expired target they are all zero.
   */
  method Decompose(target: int, now: int) returns (r: Remaining)
    ensures Shows(r, Clamped(target, now))
    ensures target - now <= 0 ==> r == Remaining(0, 0, 0, 0)
  {
    var diff := Clamped(target, now);
    ghost var d := diff;
    var days := diff / MsPerDay;
    diff := diff - days * MsPerDay;
    var hours := diff / MsPerHour;
    diff := diff - hours * MsPerHour;
    var minutes := diff / MsPerMinute;
    diff := diff - minutes * MsPerMinute;
    var seconds := diff / MsPerSecond;
    r := Remaining(days, hours, minutes, seconds);
    assert hours < 24 && minutes < 60 && seconds < 60;
    assert Millis(r) + diff - seconds * MsPerSecond == d;
  }

  /**
   * Exactly one well-formed Remaining shows a given duration: the fields are
   * determined by the duration, so every correct decomposition agrees.
   */
  lemma ShowsUnique(r1: Remaining, r2: Remaining, d: nat)
    requires Shows(r1, d) && Shows(r2, d)
    ensures r1 == r2
  {
    MillisSeconds(r1);
    MillisSeconds(r2);
    var s1 := Millis(r1) / MsPerSecond;
    var s2 := Millis(r2) / MsPerSecond;
    assert s1 == s2;
    SecondsUnique(r1, r2, s1);
  }

  /** Millis counts whole seconds. */
  lemma MillisSeconds(r: Remaining)
    ensures Millis(r) == MsPerSecond * (r.days * 86400 + r.hours * 3600 + r.minutes * 60 + r.seconds)
  {
  }

  lemma SecondsUnique(r1: Remaining, r2: Remaining, s: nat)
    requires WellFormed(r1) && WellFormed(r2)
    requires r1.days * 86400 + r1.hours * 3600 + r1.minutes * 60 + r1.seconds == s
    requires r2.days * 86400 + r2.hours * 3600 + r2.minutes * 60 + r2.seconds == s
    ensures r1 == r2
  {
    DivModUnique(r1.days * 1440 + r1.hours * 60 + r1.minutes, r1.seconds,
                 r2.days * 1440 + r2.hours * 60 + r2.minutes, r2.seconds, 60);
    DivModUnique(r1.days * 24 + r1.hours, r1.minutes, r2.days * 24 + r2.hours, r2.minutes, 60);
    DivModUnique(r1.days, r1.hours, r2.days, r2.hours, 24);
  }

  lemma DivModUnique(q1: nat, m1: nat, q2: nat, m2: nat, b: nat)
    requires 0 < b && m1 < b && m2 < b
    requires q1 * b + m1 == q2 * b + m2
    ensures q1 == q2 && m1 == m2
  {
    MulGap(q1, q2, b);
    MulGap(q2, q1, b);
  }

  /** Multiples of b that differ at all differ by at least b. */
  lemma MulGap(x: nat, y: nat, b: nat)
    ensures x < y ==> x * b + b <= y * b
  {
    if x < y {
      var k: nat := y - x - 1;
      assert y * b == x * b + b + k * b;
    }
  }

  /** Two seconds before the target the display reads 0 days, 0 h, 0 min, 2 s. */
  lemma TwoSecondsLeft(r: Remaining)
    requires Shows(r, 2000)
    ensures r == Remaining(0, 0, 0, 2)
  {
    ShowsUnique(r, Remaining(0, 0, 0, 2), 2000);
  }

  // ---- `pad(n)`: `String(n).padStart(2, '0')` ----

  predicate IsDigit(c: char) { '0' <= c <= '9' }

  predicate AllDigits(s: string) {
    forall i :: 0 <= i < |s| ==> IsDigit(s[i])
  }

  function DigitValue(c: char): (d: nat)
    requires IsDigit(c)
    ensures d < 10
  {
    (c as int) - ('0' as int)
  }

  function DigitChar(d: nat): (c: char)
    requires d < 10
    ensures IsDigit(c) && DigitValue(c) == d
  {
    (('0' as int) + d) as char
  }

  /** `String(n)` for a non-negative integer: its decimal digits, no leading zero. */
  function Digits(n: nat): (s: string)
    ensures |s| >= 1
    ensures AllDigits(s)
    ensures (|s| == 1) <==> n < 10
    ensures |s| > 1 ==> s[0] != '0'
  {
    if n < 10 then [DigitChar(n)] else Digits(n / 10) + [DigitChar(n % 10)]
  }

  /** The number a string of decimal digits denotes. */
  function Value(s: string): nat
    requires AllDigits(s)
  {
    if s == [] then 0
    else Value(s[..|s| - 1]) * 10 + DigitValue(s[|s| - 1])
  }

  lemma {:induction false} ValueDigits(n: nat)
    ensures Value(Digits(n)) == n
  {
    if n >= 10 {
      var s := Digits(n);
      assert s[..|s| - 1] == Digits(n / 10);
      ValueDigits(n / 10);
    }
  }

  /** A leading zero does not change the value. */
  lemma {:induction false} ValueLeadingZero(s: string)
    requires AllDigits(s)
    ensures Value("0" + s) == Value(s)
  {
    if s != [] {
      assert ("0" + s)[..|"0" + s| - 1] == "0" + s[..|s| - 1];
      ValueLeadingZero(s[..|s| - 1]);
    }
  }

  /** `padStart(width, fill)`: fill on the left up to `width` characters. */
  function PadStart(s: string, width: nat, fill: char): (r: string)
    ensures |r| == if |s| < width then width else |s|
    ensures r[|r| - |s|..] == s
    ensures forall i :: 0 <= i < |r| - |s| ==> r[i] == fill
  {
    if |s| < width then seq(width - |s|, _ => fill) + s else s
  }

  function Pad(n: nat): (r: string)
    ensures |r| >= 2 && AllDigits(r)
    ensures Value(r) == n
  {
    var r := PadStart(Digits(n), 2, '0');
    ValueDigits(n);
    if n < 10 then
      assert r == "0" + Digits(n);
      ValueLeadingZero(Digits(n));
      r
    else r
  }

  /**
   * `pad` yields at least two decimal digits, adds one '0' exactly when
   * n < 10, and the digits still denote n.
   */
  lemma PadProperties(n: nat)
    ensures |Pad(n)| >= 2
    ensures AllDigits(Pad(n))
    ensures n < 10 ==> Pad(n) == ['0'] + Digits(n)
    ensures n >= 10 ==> Pad(n) == Digits(n)
    ensures Value(Pad(n)) == n
  {
    ValueDigits(n);
    if n < 10 {
      assert Pad(n) == "0" + Digits(n);
      ValueLeadingZero(Digits(n));
    }
  }

  /** The four texts `update` writes. */
  datatype Display = Display(days: string, hours: string, minutes: string, seconds: string)

  /**
   * Every field is at least two digits and denotes its number; hours,
   * minutes and seconds of a well-formed Remaining are exactly two digits.
   */
  function Render(r: Remaining): (v: Display)
    ensures AllDigits(v.days) && AllDigits(v.hours) && AllDigits(v.minutes) && AllDigits(v.seconds)
    ensures |v.days| >= 2 && Value(v.days) == r.days
    ensures |v.hours| >= 2 && Value(v.hours) == r.hours
    ensures |v.minutes| >= 2 && Value(v.minutes) == r.minutes
    ensures |v.seconds| >= 2 && Value(v.seconds) == r.seconds
    ensures WellFormed(r) ==> |v.hours| == 2 && |v.minutes| == 2 && |v.seconds| == 2
  {
    PadProperties(r.days);
    PadProperties(r.hours);
    PadProperties(r.minutes);
    PadProperties(r.seconds);
    PadTwoDigits(r.hours);
    PadTwoDigits(r.minutes);
    PadTwoDigits(r.seconds);
    Display(Pad(r.days), Pad(r.hours), Pad(r.minutes), Pad(r.seconds))
  }

  lemma PadTwoDigits(n: nat)
    ensures n < 100 ==> |Pad(n)| == 2
  {
    if 10 <= n < 100 {
      assert Digits(n) == Digits(n / 10) + [DigitChar(n % 10)];
    }
  }
}
