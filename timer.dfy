/** The exam countdown: a value in seconds decremented by a one-second
    interval, which stops itself and signals expiry on reaching zero, and
    its hh:mm:ss display. */
module Timer {

  /** The countdown value after one interval tick. */
  function NextSecond(prev: int): (r: int)
    ensures r >= 0
    ensures prev >= 0 ==> r <= prev
    ensures r == 0 <==> prev <= 1
    ensures prev > 1 ==> r == prev - 1
  {
    if prev <= 1 then 0 else prev - 1
  }

  /** The number of ticks until expiry from `start` seconds: expiry happens
      on the first tick that finds at most one second left. */
  function TicksToExpiry(start: nat): (n: nat)
    ensures n >= 1
  {
    if start <= 1 then 1 else start
  }

  /** The countdown state: the seconds left and whether the interval is
      still scheduled. */
  class Countdown {
    var secondsRemaining: int
    var running: bool

    /** The countdown never shows a negative value. */
    ghost predicate Valid()
      reads this
    {
      secondsRemaining >= 0
    }

    /** Mounting the timer: the full duration, interval scheduled. */
    constructor(durationMinutes: nat)
      ensures Valid()
      ensures secondsRemaining == durationMinutes * 60 && running
    {
      secondsRemaining := durationMinutes * 60;
      running := true;
    }

    /** One interval callback. Once the interval is cleared no callback
        runs. `timeUp` is whether expiry was signalled by this tick. */
    method Tick() returns (timeUp: bool)
      requires Valid()
      modifies this
      ensures Valid()
      ensures timeUp <==> old(running) && old(secondsRemaining) <= 1
      ensures secondsRemaining == if old(running) then NextSecond(old(secondsRemaining)) else old(secondsRemaining)
      ensures secondsRemaining <= old(secondsRemaining)
      ensures running <==> old(running) && !timeUp
      ensures timeUp ==> secondsRemaining == 0
    {
      timeUp := false;
      if running {
        var prev := secondsRemaining;
        if prev <= 1 {
          running := false;
          timeUp := true;
          secondsRemaining := 0;
        } else {
          secondsRemaining := prev - 1;
        }
      }
    }

    /** A re-render hands the timer a new expiry callback, so its effect
        runs again: the interval is cleared and a new one is scheduled,
        whether or not the old one had cleared itself. The value is
        component state and stays. */
    method Rerender()
      modifies this`running
      ensures running
    {
      running := false;
      running := true;
    }

    /** The effect re-run as intended: a new interval is scheduled only
        while time remains, so an interval that cleared itself on expiry
        stays cleared. */
    method RerenderGuarded()
      modifies this`running
      ensures running <==> old(running) || secondsRemaining > 0
    {
      if secondsRemaining > 0 {
        running := false;
        running := true;
      }
    }

    /** Unmounting the timer clears the interval. */
    method Stop()
      modifies this`running
      ensures !running
    {
      running := false;
    }
  }

  /** Mount a timer and let the interval fire `ticks` times: expiry is
      signalled exactly once, on tick `TicksToExpiry`, and the value counts
      down one second per tick to zero and stays there. */
  method SimulateCountdown(durationMinutes: nat, ticks: nat) returns (timeUpCalls: nat, remaining: int)
    ensures timeUpCalls == if ticks >= TicksToExpiry(durationMinutes * 60) then 1 else 0
    ensures remaining == if ticks < durationMinutes * 60 then durationMinutes * 60 - ticks else 0
  {
    var start := durationMinutes * 60;
    var timer := new Countdown(durationMinutes);
    timeUpCalls := 0;
    for i := 0 to ticks
      invariant timer.Valid()
      invariant timer.running <==> i < TicksToExpiry(start)
      invariant timer.secondsRemaining == if i < start then start - i else 0
      invariant timeUpCalls == if i >= TicksToExpiry(start) then 1 else 0
    {
      var timeUp := timer.Tick();
      if timeUp {
        timeUpCalls := timeUpCalls + 1;
      }
    }
    remaining := timer.secondsRemaining;
  }

  /** What happens to a mounted timer: a second elapses, or the screen
      around it re-renders. */
  datatype TimerEvent = SecondElapsed | Rerendered

  /** The number of elapsed seconds among the events. */
  function Elapsed(events: seq<TimerEvent>): (n: nat)
    ensures n <= |events|
  {
    if events == [] then 0
    else Elapsed(events[..|events| - 1]) + (if events[|events| - 1] == SecondElapsed then 1 else 0)
  }

  /** As written, a re-render after expiry schedules a new interval, whose
      first tick finds 0 seconds left and signals expiry a second time. */
  method ExpiryTwiceAsWritten(durationMinutes: nat) returns (timeUpCalls: nat)
    ensures timeUpCalls == 2
  {
    var start := durationMinutes * 60;
    var timer := new Countdown(durationMinutes);
    timeUpCalls := 0;
    for i := 0 to TicksToExpiry(start)
      invariant timer.Valid()
      invariant timer.running <==> i < TicksToExpiry(start)
      invariant timer.secondsRemaining == if i < start then start - i else 0
      invariant timeUpCalls == if i >= TicksToExpiry(start) then 1 else 0
    {
      var timeUp := timer.Tick();
      if timeUp {
        timeUpCalls := timeUpCalls + 1;
      }
    }
    timer.Rerender();
    var timeUp := timer.Tick();
    if timeUp {
      timeUpCalls := timeUpCalls + 1;
    }
  }

  /** With re-renders handled as intended, any interleaving of elapsed
      seconds and re-renders signals expiry once when enough seconds have
      elapsed and never otherwise, and the value counts down as with a
      single interval. */
  method SimulateSession(durationMinutes: nat, events: seq<TimerEvent>) returns (timeUpCalls: nat, remaining: int)
    ensures timeUpCalls == if Elapsed(events) >= TicksToExpiry(durationMinutes * 60) then 1 else 0
    ensures remaining == if Elapsed(events) < durationMinutes * 60 then durationMinutes * 60 - Elapsed(events) else 0
  {
    var start := durationMinutes * 60;
    var timer := new Countdown(durationMinutes);
    timeUpCalls := 0;
    for i := 0 to |events|
      invariant timer.Valid()
      invariant timer.running <==> Elapsed(events[..i]) < TicksToExpiry(start)
      invariant timer.secondsRemaining == if Elapsed(events[..i]) < start then start - Elapsed(events[..i]) else 0
      invariant timeUpCalls == if Elapsed(events[..i]) >= TicksToExpiry(start) then 1 else 0
    {
      assert events[..i + 1][..i] == events[..i];
      if events[i] == SecondElapsed {
        var timeUp := timer.Tick();
        if timeUp {
          timeUpCalls := timeUpCalls + 1;
        }
      } else {
        timer.RerenderGuarded();
      }
    }
    assert events[..|events|] == events;
    remaining := timer.secondsRemaining;
  }

  /** Hours, minutes and seconds of the display. */
  datatype ClockFace = ClockFace(hours: nat, minutes: nat, seconds: nat)

  function Decompose(secondsRemaining: nat): (c: ClockFace)
    ensures c.hours * 3600 + c.minutes * 60 + c.seconds == secondsRemaining
    ensures c.minutes < 60 && c.seconds < 60
  {
    var hours := secondsRemaining / 3600;
    var rest := secondsRemaining % 3600;
    var minutes := rest / 60;
    var seconds := secondsRemaining % 60;
    assert rest == minutes * 60 + rest % 60;
    assert secondsRemaining == hours * 3600 + minutes * 60 + rest % 60;
    assert secondsRemaining % 60 == rest % 60 by {
      assert secondsRemaining == (hours * 60 + minutes) * 60 + rest % 60;
    }
    ClockFace(hours, minutes, seconds)
  }

  /** The decomposition is the only one with minutes and seconds below 60. */
  lemma DecomposeUnique(secondsRemaining: nat, c: ClockFace)
    requires c.hours * 3600 + c.minutes * 60 + c.seconds == secondsRemaining
    requires c.minutes < 60 && c.seconds < 60
    ensures c == Decompose(secondsRemaining)
  {
    var d := Decompose(secondsRemaining);
    var below := c.minutes * 60 + c.seconds;
    var below' := d.minutes * 60 + d.seconds;
    assert below < 3600 && below' < 3600;
    assert c.hours * 3600 + below == d.hours * 3600 + below';
    assert c.hours == d.hours;
    assert below == below';
  }

  // Decimal rendering and zero padding.

  predicate IsDigit(c: char) { '0' <= c <= '9' }

  function DigitChar(d: nat): (c: char)
    requires d < 10
    ensures IsDigit(c)
  {
    "0123456789"[d]
  }

  function DigitValue(c: char): nat
    requires IsDigit(c)
  {
    (c as int - '0' as int) as nat
  }

  /** The decimal digits of `n` without leading zeros (`toString`). */
  function NatToString(n: nat): (s: string)
    ensures |s| >= 1 && forall i :: 0 <= i < |s| ==> IsDigit(s[i])
    ensures n < 10 ==> |s| == 1
    ensures n >= 10 ==> |s| >= 2
  {
    if n < 10 then [DigitChar(n)] else NatToString(n / 10) + [DigitChar(n % 10)]
  }

  /** `s` preceded by as many copies of `fill` as it takes to reach `width`
      (`padStart`). */
  function PadStart(s: string, width: nat, fill: char): (r: string)
    ensures |r| == if |s| >= width then |s| else width
    ensures r[|r| - |s|..] == s
    ensures forall i :: 0 <= i < |r| - |s| ==> r[i] == fill
  {
    if |s| >= width then s else seq(width - |s|, _ => fill) + s
  }

  /** A display field: at least two digits, zero padded. */
  function FormatTime(value: nat): (r: string)
    ensures |r| >= 2 && forall i :: 0 <= i < |r| ==> IsDigit(r[i])
    ensures value < 100 ==> r == [DigitChar(value / 10), DigitChar(value % 10)]
  {
    var digits := NatToString(value);
    var r := PadStart(digits, 2, '0');
    assert value < 10 ==> r == ['0'] + digits;
    assert 10 <= value < 100 ==> digits == NatToString(value / 10) + [DigitChar(value % 10)] && value / 10 < 10;
    r
  }

  /** The number a string of digits denotes. */
  function ParseDecimal(s: string): nat
    requires forall i :: 0 <= i < |s| ==> IsDigit(s[i])
  {
    if s == [] then 0 else ParseDecimal(s[..|s| - 1]) * 10 + DigitValue(s[|s| - 1])
  }

  lemma {:induction false} ParseNatToString(n: nat)
    ensures ParseDecimal(NatToString(n)) == n
  {
    if n >= 10 {
      var s := NatToString(n);
      ParseNatToString(n / 10);
      assert s[..|s| - 1] == NatToString(n / 10);
    }
  }

  lemma {:induction false} ParseLeadingZeros(zeros: nat, s: string)
    requires forall i :: 0 <= i < |s| ==> IsDigit(s[i])
    ensures var z := seq(zeros, _ => '0') + s;
            (forall i :: 0 <= i < |z| ==> IsDigit(z[i])) && ParseDecimal(z) == ParseDecimal(s)
    decreases |s|, zeros
  {
    var z := seq(zeros, _ => '0') + s;
    if s == [] {
      if zeros > 0 {
        assert z[..|z| - 1] == seq(zeros - 1, _ => '0') + [];
        ParseLeadingZeros(zeros - 1, []);
      }
    } else {
      ParseLeadingZeros(zeros, s[..|s| - 1]);
      assert z[..|z| - 1] == seq(zeros, _ => '0') + s[..|s| - 1];
    }
  }

  /** The display field denotes the value it was made from. */
  lemma FormatTimeRoundTrip(value: nat)
    ensures ParseDecimal(FormatTime(value)) == value
  {
    var digits := NatToString(value);
    ParseNatToString(value);
    ParseLeadingZeros(if |digits| >= 2 then 0 else 2 - |digits|, digits);
    assert |digits| < 2 ==> FormatTime(value) == seq(2 - |digits|, _ => '0') + digits;
    assert |digits| >= 2 ==> FormatTime(value) == seq(0, _ => '0') + digits;
  }

  /** The warning style applies under five minutes. */
  predicate IsLowTime(secondsRemaining: int)
  {
    secondsRemaining < 300
  }

  /** Under five minutes is exactly a display of 00:0m:ss with m below 5. */
  lemma LowTimeDisplay(secondsRemaining: nat)
    ensures IsLowTime(secondsRemaining) <==> Decompose(secondsRemaining).hours == 0 && Decompose(secondsRemaining).minutes < 5
  {
    var c := Decompose(secondsRemaining);
    if c.hours > 0 {
      assert c.hours * 3600 >= 3600;
    }
  }

  /** Once the warning shows, ticking never removes it. */
  lemma LowTimeStays(secondsRemaining: int)
    requires IsLowTime(secondsRemaining)
    ensures IsLowTime(NextSecond(secondsRemaining))
  {
  }
}
