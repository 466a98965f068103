/**
  One pass of the controller's polling loop: for every device, read the
  temperature, decide with the hysteresis gate whether to write a new speed,
  remember what was applied, and pick the sleep before the next pass.
 */
module Polling {
  import opened FanCurve
  import opened Nvml
  import FanWrites

  /** Minimum temperature change, in degrees, before a new speed is written. */
  const TempThreshold := 2
  /** A change larger than this, in degrees, halves the next sleep. */
  const FastChange := 5
  /** How many devices the controller drives at most. */
  const MaxDevices := 1

  /** The device count the controller keeps: the enumerated count, capped at MaxDevices. */
  function ClampDeviceCount(n: nat): (m: nat)
    ensures m <= n && m <= MaxDevices
    ensures m == n || m == MaxDevices
  {
    if n > MaxDevices then MaxDevices else n
  }

  /** What the controller remembers of a device: the last applied temperature and speed. */
  datatype DeviceState = DeviceState(temp: nat, speed: nat)

  /** The state every device starts in (the zero-initialised arrays). */
  const Initial := DeviceState(0, 0)

  /** The answer to one temperature query of one device. */
  datatype Reading = Temperature(degrees: nat) | ReadFailed(code: nat)

  /** Distance between a reading and the last applied temperature. */
  function Diff(s: DeviceState, t: nat): nat
  {
    if t >= s.temp then t - s.temp else s.temp - t
  }

  /** The hysteresis gate: a write is attempted only past the threshold and for a new speed. */
  ghost predicate WriteWanted(c: Curve, s: DeviceState, t: nat)
    requires Accepted(c)
  {
    Diff(s, t) >= TempThreshold && SpeedAt(c, t) != s.speed
  }

  /** The pass attempts a write for this device. */
  ghost predicate Attempted(c: Curve, s: DeviceState, reading: Reading)
    requires Accepted(c)
  {
    reading.Temperature? && WriteWanted(c, s, reading.degrees)
  }

  /** The write for temperature t succeeded on every fan of the device. */
  ghost predicate WriteSucceeds(c: Curve, t: nat, answer: (nat, nat) -> NvmlReturn, fanCount: nat)
    requires Accepted(c)
  {
    StopAtFirstFailure(FanWrites.SpeedWrites(answer, SpeedAt(c, t), fanCount)).result.Success?
  }

  /**
    What one pass leaves in a device's memory: the reading and its speed when
    a write was attempted and every fan accepted it; otherwise what was there.
   */
  ghost function Step(c: Curve, s: DeviceState, reading: Reading, answer: (nat, nat) -> NvmlReturn, fanCount: nat)
    : DeviceState
    requires Accepted(c)
  {
    match reading
    case ReadFailed(_) => s
    case Temperature(t) =>
      if WriteWanted(c, s, t) && WriteSucceeds(c, t, answer, fanCount) then DeviceState(t, SpeedAt(c, t))
      else s
  }

  /**
    The (fan, speed) requests one pass makes for a device: when the gate opens,
    the curve speed to fans 0, 1, ... in order, up to and including the first
    fan that refuses it; otherwise none.
   */
  ghost function Writes(c: Curve, s: DeviceState, reading: Reading, answer: (nat, nat) -> NvmlReturn, fanCount: nat)
    : seq<(nat, nat)>
    requires Accepted(c)
  {
    if Attempted(c, s, reading) then
      var speed := SpeedAt(c, reading.degrees);
      seq(StopAtFirstFailure(FanWrites.SpeedWrites(answer, speed, fanCount)).calls, j requires 0 <= j => (j, speed))
    else []
  }

  /** The reading asks for the short sleep: it was read and moved more than FastChange. */
  predicate Hurried(s: DeviceState, reading: Reading)
  {
    reading.Temperature? && Diff(s, reading.degrees) > FastChange
  }

  /** The sleep after a pass: half the interval when some device hurried, else the interval. */
  function SleepTime(states: seq<DeviceState>, readings: seq<Reading>, interval: real): real
    requires |readings| == |states|
  {
    if exists i :: 0 <= i < |states| && Hurried(states[i], readings[i]) then interval / 2.0 else interval
  }

  // ---------------------------------------------------------------------------
  // Properties of one device's step
  // ---------------------------------------------------------------------------

  /**
    The remembered state changes only through a successful write past the
    hysteresis gate, and then becomes the reading and its curve speed; a failed
    read or a failed write changes nothing.
   */
  lemma StepChangesOnlyOnAppliedWrite(c: Curve, s: DeviceState, reading: Reading,
                                      answer: (nat, nat) -> NvmlReturn, fanCount: nat)
    requires Accepted(c)
    ensures var s' := Step(c, s, reading, answer, fanCount);
      s' != s ==>
        reading.Temperature? && Diff(s, reading.degrees) >= TempThreshold &&
        SpeedAt(c, reading.degrees) != s.speed &&
        (forall j: nat :: j < fanCount ==> answer(j, SpeedAt(c, reading.degrees)).Success?) &&
        s' == DeviceState(reading.degrees, SpeedAt(c, reading.degrees))
    ensures reading.ReadFailed? ==> Step(c, s, reading, answer, fanCount) == s
    ensures Attempted(c, s, reading) && WriteSucceeds(c, reading.degrees, answer, fanCount) ==>
      Step(c, s, reading, answer, fanCount) == DeviceState(reading.degrees, SpeedAt(c, reading.degrees))
  {
    if reading.Temperature? {
      var results := FanWrites.SpeedWrites(answer, SpeedAt(c, reading.degrees), fanCount);
      assert forall j: nat :: j < fanCount ==> results[j] == answer(j, SpeedAt(c, reading.degrees));
    }
  }

  /**
    The hysteresis gate on the writes themselves: a pass requests a speed only
    for a successful read that moved at least TempThreshold degrees and whose
    curve speed is new; it then requests that speed of fans 0, 1, ... in order,
    stops after the first refusal, and reaches every fan when all accept. When
    the gate opens on a device with fans, at least fan 0 is asked.
   */
  lemma WritesFollowGate(c: Curve, s: DeviceState, reading: Reading,
                         answer: (nat, nat) -> NvmlReturn, fanCount: nat)
    requires Accepted(c)
    ensures var w := Writes(c, s, reading, answer, fanCount);
      (w != [] ==>
        reading.Temperature? && Diff(s, reading.degrees) >= TempThreshold &&
        SpeedAt(c, reading.degrees) != s.speed) &&
      |w| <= fanCount &&
      (forall j :: 0 <= j < |w| ==> w[j] == (j, SpeedAt(c, reading.degrees))) &&
      (forall j :: 0 <= j < |w| - 1 ==> answer(j, SpeedAt(c, reading.degrees)).Success?) &&
      (Attempted(c, s, reading) && 0 < fanCount ==> w != []) &&
      (Step(c, s, reading, answer, fanCount) != s ==> |w| == fanCount)
  {
    if Attempted(c, s, reading) {
      var speed := SpeedAt(c, reading.degrees);
      var results := FanWrites.SpeedWrites(answer, speed, fanCount);
      assert forall j :: 0 <= j < fanCount ==> results[j] == answer(j, speed);
    }
  }

  /** A change below the threshold never attempts a write (and so changes nothing). */
  lemma SmallChangeKeepsState(c: Curve, s: DeviceState, t: nat, answer: (nat, nat) -> NvmlReturn, fanCount: nat)
    requires Accepted(c) && Diff(s, t) < TempThreshold
    ensures !Attempted(c, s, Temperature(t))
    ensures Writes(c, s, Temperature(t), answer, fanCount) == []
    ensures Step(c, s, Temperature(t), answer, fanCount) == s
  {
  }

  /**
    What the controller remembers is always consistent with the curve: either
    the initial state or a temperature together with the curve's speed for it.
   */
  ghost predicate Consistent(c: Curve, s: DeviceState)
    requires Accepted(c)
  {
    s == Initial || s.speed == SpeedAt(c, s.temp)
  }

  lemma StepKeepsConsistent(c: Curve, s: DeviceState, reading: Reading, answer: (nat, nat) -> NvmlReturn, fanCount: nat)
    requires Accepted(c) && Consistent(c, s)
    ensures Consistent(c, Step(c, s, reading, answer, fanCount))
    ensures var s' := Step(c, s, reading, answer, fanCount);
      s' == Initial || c.fans[0] <= s'.speed <= c.fans[c.Last()]
    ensures Step(c, s, reading, answer, fanCount).speed <= MaxFanTarget
  {
    AcceptedRanges(c, c.Last());
  }

  /**
    No flapping: once a reading has been applied, the same reading again
    attempts no write and changes nothing, whatever the library answers.
   */
  lemma AppliedReadingIsStable(c: Curve, s: DeviceState, reading: Reading,
                               answer: (nat, nat) -> NvmlReturn, answer': (nat, nat) -> NvmlReturn, fanCount: nat)
    requires Accepted(c) && Step(c, s, reading, answer, fanCount) != s
    ensures !Attempted(c, Step(c, s, reading, answer, fanCount), reading)
    ensures Writes(c, Step(c, s, reading, answer, fanCount), reading, answer', fanCount) == []
    ensures Step(c, Step(c, s, reading, answer, fanCount), reading, answer', fanCount) == Step(c, s, reading, answer, fanCount)
  {
  }

  /** The sleep is never longer than the interval, and halved exactly when some device hurried. */
  lemma SleepTimeBounds(states: seq<DeviceState>, readings: seq<Reading>, interval: real)
    requires |readings| == |states| && interval > 0.0
    ensures 0.0 < SleepTime(states, readings, interval) <= interval
    ensures SleepTime(states, readings, interval) < interval <==>
      exists i :: 0 <= i < |states| && Hurried(states[i], readings[i])
  {
  }

  /**
    Two devices on the shipped curve, both last applied at 60 degrees and 52 %:
    the one that warms to 63 gets one write of 59 % and remembers it; the one
    that warms to 61 is below the threshold and keeps its state.
   */
  lemma TwoDeviceExample(answer: (nat, nat) -> NvmlReturn)
    requires forall j: nat, speed: nat :: answer(j, speed) == Success
    ensures Step(Shipped, DeviceState(60, 52), Temperature(63), answer, 1) == DeviceState(63, 59)
    ensures Step(Shipped, DeviceState(60, 52), Temperature(61), answer, 1) == DeviceState(60, 52)
    ensures Writes(Shipped, DeviceState(60, 52), Temperature(63), answer, 1) == [(0, 59)]
    ensures Writes(Shipped, DeviceState(60, 52), Temperature(61), answer, 1) == []
    ensures SleepTime([DeviceState(60, 52), DeviceState(60, 52)], [Temperature(63), Temperature(61)], 1.0) == 1.0
  {
    ShippedCurveSpeeds();
    assert FanWrites.SpeedWrites(answer, 59, 1) == [answer(0, 59)];
  }

  // ---------------------------------------------------------------------------
  // The controller's per-device memory and the polling pass
  // ---------------------------------------------------------------------------

  /**
    The state `main` keeps across passes: the curve and its precomputed slopes,
    each device's fan count, and the arrays of last applied temperatures and
    speeds, one entry per device.
   */
  class Controller {
    const curve: Curve
    const slopes: array<int>
    const fanCounts: seq<nat>
    const prevTemps: array<nat>
    const prevSpeeds: array<nat>

    ghost predicate Valid()
      reads this, slopes, prevTemps, prevSpeeds
    {
      Ready(curve) &&
      slopes.Length == curve.Last() && slopes[..] == Slopes(curve) &&
      prevTemps.Length == |fanCounts| && prevSpeeds.Length == |fanCounts| &&
      prevTemps != prevSpeeds &&
      forall i :: 0 <= i < prevTemps.Length ==> Consistent(curve, DeviceState(prevTemps[i], prevSpeeds[i]))
    }

    /** The remembered state of every device. */
    ghost function States(): seq<DeviceState>
      reads this, prevTemps, prevSpeeds
      requires prevTemps.Length == prevSpeeds.Length
    {
      seq(prevTemps.Length, i requires 0 <= i < prevTemps.Length reads prevTemps, prevSpeeds =>
        DeviceState(prevTemps[i], prevSpeeds[i]))
    }

    /**
      Start-up after the checks: slopes computed, every device in the initial
      state. `Ready(c)` is exactly what `ValidateStrict` accepts; the checks as
      written (`Validate`) do not establish it.
     */
    constructor (c: Curve, fanCounts: seq<nat>)
      requires Ready(c)
      ensures Valid() && curve == c && this.fanCounts == fanCounts
      ensures fresh(slopes) && fresh(prevTemps) && fresh(prevSpeeds)
      ensures States() == seq(|fanCounts|, _ => Initial)
    {
      curve := c;
      this.fanCounts := fanCounts;
      var s := new int[c.Last()];
      InitSlopes(c, s);
      assert s[..] == s[..c.Last()];
      slopes := s;
      prevTemps := new nat[|fanCounts|](_ => 0);
      prevSpeeds := new nat[|fanCounts|](_ => 0);
    }

    /**
      The body of the polling loop for device i: read its temperature (a
      failed read skips the device), compute the curve speed, and write it to
      every fan when the hysteresis gate opens; remember the reading and the
      speed only when every fan accepted it. `hurried` says whether this
      device asks for the short sleep and `requests` lists the (fan, speed)
      writes it made. No other device's memory changes.
     */
    method PollDevice(i: nat, reading: Reading, answer: (nat, nat) -> NvmlReturn)
      returns (hurried: bool, requests: seq<(nat, nat)>)
      requires Valid() && i < |fanCounts|
      modifies prevTemps, prevSpeeds
      ensures Valid()
      ensures DeviceState(prevTemps[i], prevSpeeds[i]) ==
        Step(curve, old(DeviceState(prevTemps[i], prevSpeeds[i])), reading, answer, fanCounts[i])
      ensures forall k :: 0 <= k < |fanCounts| && k != i ==>
        prevTemps[k] == old(prevTemps[k]) && prevSpeeds[k] == old(prevSpeeds[k])
      ensures hurried == Hurried(old(DeviceState(prevTemps[i], prevSpeeds[i])), reading)
      ensures requests == Writes(curve, old(DeviceState(prevTemps[i], prevSpeeds[i])), reading, answer, fanCounts[i])
    {
      var s := DeviceState(prevTemps[i], prevSpeeds[i]);
      StepKeepsConsistent(curve, s, reading, answer, fanCounts[i]);
      requests := [];
      match reading {
        case ReadFailed(_) =>
          return false, requests;
        case Temperature(t) =>
          var diff := Diff(s, t);
          var newSpeed := FanSpeedFromTemp(curve, slopes, t);
          if diff >= TempThreshold && newSpeed != s.speed {
            var r, made := FanWrites.SetFanSpeed(answer, newSpeed, fanCounts[i]);
            requests := made;
            if r.Success? {
              prevTemps[i] := t;
              prevSpeeds[i] := newSpeed;
            }
          }
          return diff > FastChange, requests;
      }
    }

    /**
      One pass of the polling loop over all devices. readings[i] is what the
      temperature query of device i answers and answers[i] how its fans answer
      speed requests; `interval` is the base polling interval. Each device's
      memory becomes its own `Step` and nothing else; requests[i] lists the
      writes made to device i's fans; `sleep` is the sleep before the next
      pass, the shortest of the devices' choices.
     */
    method Tick(readings: seq<Reading>, answers: seq<(nat, nat) -> NvmlReturn>, interval: real)
      returns (sleep: real, requests: seq<seq<(nat, nat)>>)
      requires Valid() && |readings| == |fanCounts| && |answers| == |fanCounts|
      requires interval > 0.0
      modifies prevTemps, prevSpeeds
      ensures Valid()
      ensures |States()| == |old(States())|
      ensures forall i :: 0 <= i < |fanCounts| ==>
        States()[i] == Step(curve, old(States())[i], readings[i], answers[i], fanCounts[i])
      ensures |requests| == |fanCounts|
      ensures forall i :: 0 <= i < |fanCounts| ==>
        requests[i] == Writes(curve, old(States())[i], readings[i], answers[i], fanCounts[i])
      ensures sleep == SleepTime(old(States()), readings, interval)
    {
      ghost var before := States();
      sleep := interval;
      requests := [];
      var i := 0;
      while i < |fanCounts|
        invariant 0 <= i <= |fanCounts|
        invariant Valid()
        invariant forall k :: 0 <= k < i ==>
          DeviceState(prevTemps[k], prevSpeeds[k]) == Step(curve, before[k], readings[k], answers[k], fanCounts[k])
        invariant forall k :: i <= k < |fanCounts| ==> DeviceState(prevTemps[k], prevSpeeds[k]) == before[k]
        invariant |requests| == i
        invariant forall k :: 0 <= k < i ==> requests[k] == Writes(curve, before[k], readings[k], answers[k], fanCounts[k])
        invariant sleep == if exists k :: 0 <= k < i && Hurried(before[k], readings[k]) then interval / 2.0 else interval
      {
        var hurried, made := PollDevice(i, readings[i], answers[i]);
        requests := requests + [made];
        var sleepTime := if hurried then interval / 2.0 else interval;
        if sleepTime < sleep {
          sleep := sleepTime;
        }
        i := i + 1;
      }
    }
  }
}
