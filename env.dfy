// The cab-driver Markov Decision Process of Env.py: configuration constants,
// the state and action values, the time/day tracker, the transition engine,
// the reward function and the step driver.  Everything here is a pure
// function of its inputs; the random draws of the original live in
// cab_driver.dfy as parameters.

module Env {

  // Configuration constants (Env.py:6-10).
  const M: int := 5   // number of cities
  const T: int := 24  // hours per day
  const D: int := 7   // days per week
  const C: int := 5   // per-hour fuel and other costs
  const R: int := 9   // per-hour revenue from a passenger

  /** Hours in a week, the period of the time/day tracker (24 * 7). */
  const HoursPerWeek: int := 168

  /** A state (location, hour of day, day of week). */
  datatype State = State(loc: int, time: int, day: int)

  /** An action (pickup location, drop location); (0, 0) means refusal. */
  datatype Action = Action(pickup: int, drop: int)

  /** An (hour, day) pair as produced by the time/day tracker. */
  datatype Clock = Clock(time: int, day: int)

  const Refusal: Action := Action(0, 0)

  /** The component test of the original; it singles out exactly the sentinel. */
  predicate IsRefusal(a: Action)
    ensures IsRefusal(a) <==> a == Refusal
  {
    a.pickup == 0 && a.drop == 0
  }

  predicate ValidLoc(l: int) {
    0 <= l < M
  }

  predicate ValidState(s: State) {
    ValidLoc(s.loc) && 0 <= s.time < T && 0 <= s.day < D
  }

  /** Both endpoints are city indices, so every table lookup is in range. */
  predicate ValidAction(a: Action) {
    ValidLoc(a.pickup) && ValidLoc(a.drop)
  }

  /** A ride action: distinct endpoints, both city indices. */
  predicate IsRide(a: Action) {
    ValidAction(a) && a.pickup != a.drop
  }

  /** Hours since the start of the week. */
  function WeekHour(time: int, day: int): int {
    day * 24 + time
  }

  // ---------------------------------------------------------------------
  // Travel-time table: time[from][to][hour][day], in whole hours.

  type TimeMatrix = seq<seq<seq<seq<nat>>>>

  predicate ValidTimeMatrix(tm: TimeMatrix) {
    |tm| == M &&
    forall i :: 0 <= i < M ==>
      |tm[i]| == M &&
      forall j :: 0 <= j < M ==>
        |tm[i][j]| == T &&
        forall h :: 0 <= h < T ==> |tm[i][j][h]| == D
  }

  /** The duration of a direct trip; every in-range query is defined. */
  function Lookup(tm: TimeMatrix, from: int, to: int, time: int, day: int): (r: nat)
    requires ValidTimeMatrix(tm)
    requires ValidLoc(from) && ValidLoc(to) && 0 <= time < T && 0 <= day < D
    ensures r in tm[from][to][time]
  {
    tm[from][to][time][day]
  }

  // ---------------------------------------------------------------------
  // Time/day tracker (Env.py:92-110).  The original hard-codes 24 and 7
  // here rather than using t and d; so does this model.

  function UpdateTimeDay(time: int, day: int, duration: nat): (r: Clock)
    ensures 0 <= time ==> 0 <= r.time < 24
    ensures 0 <= day < 7 ==> 0 <= r.day < 7
    ensures time + duration < 24 ==> r.day == day
    ensures duration == 0 && 0 <= time < 24 ==> r == Clock(time, day)
  {
    if time + duration < 24 then
      Clock(time + duration, day)
    else
      var numDays := (time + duration) / 24;
      Clock((time + duration) % 24, (day + numDays) % 7)
  }

  /** The tracker conserves time modulo a week, whatever the inputs. */
  lemma UpdateTimeDayConservesWeekTime(time: int, day: int, duration: nat)
    ensures var r := UpdateTimeDay(time, day, duration);
      WeekHour(r.time, r.day) % HoursPerWeek == (WeekHour(time, day) + duration) % HoursPerWeek
  {
    var x := time + duration;
    if x >= 24 {
      var q := x / 24;
      var e := (day + q) / 7;
      assert x == 24 * q + x % 24;
      assert day + q == 7 * e + (day + q) % 7;
      var w := ((day + q) % 7) * 24 + x % 24;
      assert w == WeekHour(time, day) + duration - HoursPerWeek * e;
      ModuloShift(WeekHour(time, day) + duration, e);
    }
  }

  lemma ModuloShift(a: int, e: int)
    ensures (a - HoursPerWeek * e) % HoursPerWeek == a % HoursPerWeek
  {
    var b := a - HoursPerWeek * e;
    assert a == HoursPerWeek * (a / HoursPerWeek) + a % HoursPerWeek;
    assert b == HoursPerWeek * (a / HoursPerWeek - e) + a % HoursPerWeek;
  }

  lemma ModuloOfSmall(x: int)
    requires 0 <= x < HoursPerWeek
    ensures x % HoursPerWeek == x
  {
  }

  /** Reference definition: hour and day of the week hour w. */
  function FromWeekHour(w: int): (r: Clock)
    requires 0 <= w < HoursPerWeek
    ensures 0 <= r.time < 24 && 0 <= r.day < 7
    ensures WeekHour(r.time, r.day) == w
  {
    Clock(w % 24, w / 24)
  }

  /**
   * For an in-range (hour, day), the tracker is exactly week arithmetic:
   * add the duration to the week hour and reduce modulo 168.
   */
  lemma UpdateTimeDayIsWeekArithmetic(time: int, day: int, duration: nat)
    requires 0 <= time < 24 && 0 <= day < 7
    ensures UpdateTimeDay(time, day, duration)
         == FromWeekHour((WeekHour(time, day) + duration) % HoursPerWeek)
  {
    var r := UpdateTimeDay(time, day, duration);
    var w := (WeekHour(time, day) + duration) % HoursPerWeek;
    var f := FromWeekHour(w);
    UpdateTimeDayConservesWeekTime(time, day, duration);
    ModuloOfSmall(WeekHour(r.time, r.day));
    WeekHourInjective(r, f);
  }

  lemma WeekHourInjective(a: Clock, b: Clock)
    requires 0 <= a.time < 24 && 0 <= a.day < 7
    requires 0 <= b.time < 24 && 0 <= b.day < 7
    requires WeekHour(a.time, a.day) == WeekHour(b.time, b.day)
    ensures a == b
  {
  }

  /** Advancing by a and then by b is advancing by a + b. */
  lemma UpdateTimeDayAdditive(time: int, day: int, a: nat, b: nat)
    requires 0 <= time < 24 && 0 <= day < 7
    ensures var c := UpdateTimeDay(time, day, a);
      UpdateTimeDay(c.time, c.day, b) == UpdateTimeDay(time, day, a + b)
  {
    var c := UpdateTimeDay(time, day, a);
    var u := UpdateTimeDay(c.time, c.day, b);
    var v := UpdateTimeDay(time, day, a + b);
    var x := WeekHour(time, day) + a;
    var wc, wu, wv := WeekHour(c.time, c.day), WeekHour(u.time, u.day), WeekHour(v.time, v.day);
    UpdateTimeDayConservesWeekTime(time, day, a);
    UpdateTimeDayConservesWeekTime(c.time, c.day, b);
    UpdateTimeDayConservesWeekTime(time, day, a + b);
    ModuloOfSmall(wc);
    ModuloOfSmall(wu);
    ModuloOfSmall(wv);
    assert wc == x % HoursPerWeek;
    assert wu == (wc + b) % HoursPerWeek;
    assert wv == (x + b) % HoursPerWeek;
    ModuloAddCongruent(x, b);
    WeekHourInjective(u, v);
  }

  lemma ModuloAddCongruent(x: int, b: int)
    ensures (x % HoursPerWeek + b) % HoursPerWeek == (x + b) % HoursPerWeek
  {
    assert x % HoursPerWeek + b == x + b - HoursPerWeek * (x / HoursPerWeek);
    ModuloShift(x + b, x / HoursPerWeek);
  }

  /** One hour later: the next hour, rolling over the day after hour 23. */
  lemma UpdateTimeDayOneHour(time: int, day: int)
    requires 0 <= time < 24 && 0 <= day < 7
    ensures UpdateTimeDay(time, day, 1)
         == Clock((time + 1) % 24, if time == 23 then (day + 1) % 7 else day)
  {
    if time == 23 {
      assert (time + 1) / 24 == 1;
    }
  }

  /** The worked examples: end-of-week rollover and a trip longer than a day. */
  lemma UpdateTimeDayExamples()
    ensures UpdateTimeDay(23, 6, 1) == Clock(0, 0)
    ensures UpdateTimeDay(10, 2, 25) == Clock(11, 3)
  {
  }

  // ---------------------------------------------------------------------
  // Transition engine (Env.py:113-156).

  /** Next state and the three elapsed-time components of one step. */
  datatype Transition = Transition(next: State, wait: nat, transit: nat, ride: nat)
  {
    function TotalTime(): nat {
      wait + transit + ride
    }
  }

  function NextStateAndTime(s: State, a: Action, tm: TimeMatrix): (r: Transition)
    requires ValidState(s) && ValidAction(a) && ValidTimeMatrix(tm)
    ensures ValidState(r.next)
    ensures r.wait == (if IsRefusal(a) then 1 else 0)
    ensures IsRefusal(a) ==> r.transit == 0 && r.ride == 0 && r.next.loc == s.loc
    ensures !IsRefusal(a) ==> r.next.loc == a.drop
    ensures s.loc == a.pickup ==> r.transit == 0
    ensures UpdateTimeDay(s.time, s.day, r.TotalTime()) == Clock(r.next.time, r.next.day)
  {
    var (nextLoc, wait, transit, ride) :=
      if IsRefusal(a) then
        // the driver refuses every request and waits one hour
        (s.loc, 1, 0, 0)
      else if s.loc == a.pickup then
        // the driver is already at the pickup spot
        (a.drop, 0, 0, Lookup(tm, s.loc, a.drop, s.time, s.day))
      else
        // drive to the pickup spot; the ride is timed from the arrival
        var transit := Lookup(tm, s.loc, a.pickup, s.time, s.day);
        var c := UpdateTimeDay(s.time, s.day, transit);
        (a.drop, 0, transit, Lookup(tm, a.pickup, a.drop, c.time, c.day));
    var total := wait + transit + ride;
    var c := UpdateTimeDay(s.time, s.day, total);
    Transition(State(nextLoc, c.time, c.day), wait, transit, ride)
  }

  lemma RefusalTransition(s: State, tm: TimeMatrix)
    requires ValidState(s) && ValidTimeMatrix(tm)
    ensures var r := NextStateAndTime(s, Refusal, tm);
      r.wait == 1 && r.transit == 0 && r.ride == 0 &&
      r.next == State(s.loc, (s.time + 1) % 24, if s.time == 23 then (s.day + 1) % 7 else s.day)
  {
    var r := NextStateAndTime(s, Refusal, tm);
    assert r.TotalTime() == 1;
    UpdateTimeDayOneHour(s.time, s.day);
  }

  lemma AtPickupTransition(s: State, a: Action, tm: TimeMatrix)
    requires ValidState(s) && ValidAction(a) && ValidTimeMatrix(tm)
    requires !IsRefusal(a) && s.loc == a.pickup
    ensures var r := NextStateAndTime(s, a, tm);
      var ride := Lookup(tm, s.loc, a.drop, s.time, s.day);
      r.wait == 0 && r.transit == 0 && r.ride == ride &&
      r.next == State(a.drop, UpdateTimeDay(s.time, s.day, ride).time, UpdateTimeDay(s.time, s.day, ride).day)
  {
  }

  /**
   * General two-leg trip: the transit leg is looked up at the current time,
   * the ride leg at the time of arrival at the pickup, and the final time is
   * advanced from the original time by the whole duration.
   */
  lemma TwoLegTransition(s: State, a: Action, tm: TimeMatrix)
    requires ValidState(s) && ValidAction(a) && ValidTimeMatrix(tm)
    requires !IsRefusal(a) && s.loc != a.pickup
    ensures var r := NextStateAndTime(s, a, tm);
      var transit := Lookup(tm, s.loc, a.pickup, s.time, s.day);
      var arrival := UpdateTimeDay(s.time, s.day, transit);
      var ride := Lookup(tm, a.pickup, a.drop, arrival.time, arrival.day);
      var final := UpdateTimeDay(s.time, s.day, transit + ride);
      r.wait == 0 && r.transit == transit && r.ride == ride &&
      r.next == State(a.drop, final.time, final.day)
  {
  }

  /**
   * Advancing the original time by the total is the same as advancing the
   * time of arrival at the pickup by the ride alone: the two time values the
   * engine keeps apart describe one consistent journey.
   */
  lemma TwoLegFinalTimeIsArrivalPlusRide(s: State, a: Action, tm: TimeMatrix)
    requires ValidState(s) && ValidAction(a) && ValidTimeMatrix(tm)
    requires !IsRefusal(a)
    ensures var r := NextStateAndTime(s, a, tm);
      var arrival := UpdateTimeDay(s.time, s.day, r.transit);
      UpdateTimeDay(arrival.time, arrival.day, r.ride) == Clock(r.next.time, r.next.day)
  {
    var r := NextStateAndTime(s, a, tm);
    UpdateTimeDayAdditive(s.time, s.day, r.transit, r.ride);
  }

  /** Week time advances by exactly the step's total time, modulo a week. */
  lemma TransitionConservesWeekTime(s: State, a: Action, tm: TimeMatrix)
    requires ValidState(s) && ValidAction(a) && ValidTimeMatrix(tm)
    ensures var r := NextStateAndTime(s, a, tm);
      WeekHour(r.next.time, r.next.day)
        == (WeekHour(s.time, s.day) + r.TotalTime()) % HoursPerWeek
  {
    var r := NextStateAndTime(s, a, tm);
    UpdateTimeDayIsWeekArithmetic(s.time, s.day, r.TotalTime());
  }

  /** Next state only (Env.py:160-163). */
  function NextState(s: State, a: Action, tm: TimeMatrix): (r: State)
    requires ValidState(s) && ValidAction(a) && ValidTimeMatrix(tm)
    ensures ValidState(r)
    ensures r.loc == if IsRefusal(a) then s.loc else a.drop
  {
    NextStateAndTime(s, a, tm).next
  }

  // ---------------------------------------------------------------------
  // Reward function (Env.py:166-186).

  function Reward(s: State, a: Action, tm: TimeMatrix): (r: int)
    requires ValidState(s) && ValidAction(a) && ValidTimeMatrix(tm)
    ensures IsRefusal(a) ==> r == -C
    ensures var tr := NextStateAndTime(s, a, tm);
      !IsRefusal(a) ==> r == (R - C) * tr.ride - C * tr.transit
    // the flat refusal reward agrees with what the general formula would give
    ensures var tr := NextStateAndTime(s, a, tm);
      r == R * tr.ride - C * (tr.ride + tr.wait + tr.transit)
  {
    var tr := NextStateAndTime(s, a, tm);
    var idle := tr.wait + tr.transit;
    var earnings := R * tr.ride;
    var costs := C * (tr.ride + idle);
    var reward := earnings - costs;
    if IsRefusal(a) then -C else reward
  }

  /** An accepted trip is profitable exactly when ride revenue net of cost beats the transit cost. */
  lemma RewardSign(s: State, a: Action, tm: TimeMatrix)
    requires ValidState(s) && ValidAction(a) && ValidTimeMatrix(tm)
    requires !IsRefusal(a)
    ensures var tr := NextStateAndTime(s, a, tm);
      (Reward(s, a, tm) > 0 <==> (R - C) * tr.ride > C * tr.transit) &&
      (tr.ride == 0 && tr.transit > 0 ==> Reward(s, a, tm) < 0) &&
      (tr.transit == 0 && tr.ride > 0 ==> Reward(s, a, tm) > 0)
  {
  }

  // ---------------------------------------------------------------------
  // Step driver (Env.py:188-199).

  datatype StepResult = StepResult(next: State, reward: int, totalTime: nat)

  function Step(s: State, a: Action, tm: TimeMatrix): (r: StepResult)
    requires ValidState(s) && ValidAction(a) && ValidTimeMatrix(tm)
    ensures ValidState(r.next)
    ensures IsRefusal(a) ==> r.next.loc == s.loc && r.reward == -C && r.totalTime == 1
    ensures var tr := NextStateAndTime(s, a, tm);
      !IsRefusal(a) ==> r.next.loc == a.drop && r.reward == R * tr.ride - C * r.totalTime
    ensures UpdateTimeDay(s.time, s.day, r.totalTime) == Clock(r.next.time, r.next.day)
    // the step's parts are those of the transition and of the reward function
    ensures r.next == NextState(s, a, tm) && r.reward == Reward(s, a, tm)
    ensures r.totalTime == NextStateAndTime(s, a, tm).TotalTime()
  {
    var tr := NextStateAndTime(s, a, tm);
    var reward := Reward(s, a, tm);
    var totalTime := tr.wait + tr.transit + tr.ride;
    StepResult(tr.next, reward, totalTime)
  }
}
