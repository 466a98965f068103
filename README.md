# NVIDIA fan controller: fan curve and polling step in Dafny

This project models the core of `fanController.c`, a small daemon. It maps a GPU's
temperature to a fan speed with a piecewise-linear curve computed in fixed-point
integers. It writes that speed to the device's fans in order, stopping at the first
fan that refuses it, but only when the temperature has moved by at least
`TEMP_THRESHOLD` (2 degrees) and the speed is new.
On exit it gives the fans back to the driver's default control.

The model has four parts, one module each:

- `FanCurve` (`fan_curve.dfy`). The start-up checks that `main` runs on the
  control-point arrays `TempTargets`/`FanTargets`, generalised to any two
  equal-length, non-empty integer sequences. It also holds `initSlopes` as an
  in-place method over an `array<int>`, and `fanspeedFromT` as a method that
  keeps the program's segment-search loop. That method is proved equal to the
  reference function `SpeedAt`, and clamping, range, monotonicity and the
  absence of unsigned wrap-around are proved about `SpeedAt`.
- `Nvml` and `FanWrites` (`fan_writes.dfy`). The library's result code, and the
  per-fan loops `setFanSpeed` and `resetFanControl`. Both stop at the first
  failure. What the library answers is an input: a function from (fan, speed)
  or fan to a result. `StopAtFirstFailure` specifies both loops. The device
  loop of `cleanup` is here too.
- `Polling` (`polling.dfy`). The per-device body of the polling loop, with its
  hysteresis gate and sleep choice. `Step` specifies what one pass does to one
  device's memory. The `Controller` class holds the per-device arrays
  `prev_temperatures`/`prev_fan_speeds` (sized at run time) and the slopes
  buffer. `PollDevice` and `Tick` update them in place.
- `Options` (`options.dfy`). The optional-value datatype used for diagnostics.

Facts about the code that shape the model:

- Writes and resets stop at the first failing fan of a device.
- A device's remembered temperature and speed change only when every fan
  accepted the write.
- The curve is evaluated on every pass, from the slopes computed at start-up.
- One polling loop visits every device in turn.
- The temperature check accepts equal adjacent temperatures (see Findings).

## Model

| member | source | states |
|---|---|---|
| `FanCurve.EndsCheck` | fanController.c:96-111 | The four end-point checks, in order: each diagnostic is returned exactly when its own check fails and the earlier ones pass; `None` exactly when all four pass. |
| `FanCurve.FirstBadPair` | fanController.c:112-121 | The pair loop finds the first adjacent pair that fails a check: every pair before it passes, and it fails (or no pair fails). |
| `FanCurve.Validate` | fanController.c:96-121 | `main` returns 1 before any library call if and only if first temperature < 0, last temperature > 90, first speed < 0, last speed > 100, or some adjacent speed or temperature pair decreases. Failed end checks take precedence. Otherwise the first failing pair decides the message, with the fan check first. |
| `FanCurve.ValidateStrict` | fanController.c:117-118 | Corrected checks: the same diagnostics, but also rejecting equal adjacent temperatures. Accepts exactly the `Ready` curves: those the checks as written accept whose temperatures strictly increase, which `initSlopes` needs to avoid dividing by zero. |
| `FanCurve.ValidationAdmitsFlatStep` | fanController.c:117-118 | Any accepted curve with two equal adjacent temperatures passes `Validate` and is not `Ready`. `ValidateStrict` rejects it with the temperature-order diagnostic. |
| `FanCurve.FlatStepExample` | fanController.c:117-118 | The concrete curve 55->40, 55->60, 80->100 passes the checks as written and fails the corrected ones. |
| `FanCurve.AcceptedRanges` | fanController.c:96-121 | On an accepted curve every temperature lies in [0, 90], and every speed lies in [first speed, last speed], which is within [0, 100]. |
| `FanCurve.CDiv` | fanController.c:27-28 | C's signed `/` truncates toward zero: the magnitude of the quotient is the floor of abs(a)/b, with the sign of a. |
| `FanCurve.SlopeBounds` | fanController.c:27-28 | On a non-decreasing step the slope is at least 0 and at most 100 times the speed step. Slope times the temperature step never exceeds 100 times the speed step. |
| `FanCurve.InitSlopes` | fanController.c:25-30 | Given strictly increasing temperatures, writes exactly slopes[0..Count-2] with slope k = (F[k+1]-F[k])*100 / (T[k+1]-T[k]), truncated. The rest of the buffer is unchanged. |
| `FanCurve.Segment` | fanController.c:40-43 | A temperature strictly between the end targets lies in a step i with 1 <= i <= Count-1 and T[i-1] < t <= T[i]. |
| `FanCurve.InterpolationBounds` | fanController.c:44-45 | Inside step k the unsigned product (t-T[k])*slope is in [0, 2^32), so nothing wraps. The interpolated speed stays within [F[k], F[k+1]] despite truncation. |
| `FanCurve.SpeedAt` | fanController.c:32-46 | The lookup's result lies in [first speed, last speed] and is at most 100. |
| `FanCurve.FanSpeedFromTemp` | fanController.c:32-46 | The search loop ends in the step holding t. The result equals the reference lookup `SpeedAt` for every unsigned temperature. |
| `FanCurve.SpeedAtClamps` | fanController.c:33-38 | A single point gives its speed for every temperature. At or below the first target the lookup gives the first speed; at or above the last, the last speed. |
| `FanCurve.SpeedAtMonotone` | fanController.c:32-46 | The lookup is non-decreasing in temperature, across step boundaries too. |
| `FanCurve.ShippedCurveSpeeds` | fanController.c:15-16 | The shipped curve {55->40, 80->100} passes the checks and has slope 240. It maps 40->40, 55->40, 60->52, 63->59, 67->68, 80->100 and 90->100. |
| `Nvml.StopAtFirstFailure` | fanController.c:51-56 | A stop-at-first-failure run calls 0..calls-1, all but the last succeeded, and a failure result is the last call's. The result is success if and only if every answer is success, and then all calls are made. |
| `Nvml.StopsAt` | fanController.c:53-54 | A failure at fan j after j successes ends the run with that failure after j+1 calls. |
| `Nvml.RunsToEnd` | fanController.c:51-56 | When every fan succeeds, all fanCount calls are made and the result is success. |
| `FanWrites.SetFanSpeed` | fanController.c:48-57 | Requests the target speed of fans 0..fanCount-1 in order (the returned requests are exactly (j, speed) for j below the number of calls) and returns the first non-success result. It succeeds if and only if every fan accepts the speed. A fan count of 0 gives success with no requests. |
| `FanWrites.ResetFanControl` | fanController.c:59-67 | The same for restoring default control: stops at the first failure, succeeds if and only if every fan succeeds, and 0 fans means success with no calls. |
| `FanWrites.Cleanup` | fanController.c:81-86 | Every device with a handle gets `resetFanControl`, whatever earlier devices answered. Devices without a handle get no call. |
| `Polling.ClampDeviceCount` | fanController.c:150-151 | The device count kept is the minimum of the enumerated count and `MAX_DEVICES`. |
| `Polling.StepChangesOnlyOnAppliedWrite` | fanController.c:186-211 | A device's remembered state changes only if the reading succeeded, abs(t - prev) >= 2, the new speed differs from the remembered one, and every fan accepted it. It then becomes (t, new speed). A failed read changes nothing. |
| `Polling.WritesFollowGate` | fanController.c:197-199 | The writes a pass makes for a device (`Writes`, which `PollDevice` returns): none unless the read succeeded, abs(t - prev) >= 2 and the curve speed is new; otherwise the curve speed to fans 0, 1, ... in order, all but the last accepted, at most fanCount of them, at least one when the device has fans, and all of them when the state changed. |
| `Polling.SmallChangeKeepsState` | fanController.c:197-198 | A reading within 1 degree of the remembered temperature makes no write request and leaves the state unchanged. |
| `Polling.StepKeepsConsistent` | fanController.c:195-205 | Invariant: the remembered state is either the initial zeros or a temperature with the curve's speed for it. As a consequence the remembered speed lies within the curve's end speeds (so at most 100). |
| `Polling.AppliedReadingIsStable` | fanController.c:194-205 | No flapping: after a reading has been applied, the same reading again makes no write request and changes nothing, whatever the fans answer. |
| `Polling.SleepTimeBounds` | fanController.c:213-216 | The pass's sleep is positive and never exceeds the interval. It is shorter (half) exactly when some successfully read device moved more than 5 degrees. |
| `Polling.TwoDeviceExample` | fanController.c:186-216 | On the shipped curve with both devices at (60, 52%), a device moving to 63 gets 59% written and remembered. A device moving to 61 is below the threshold and keeps its state with no write. The sleep stays the full interval. |
| `Polling.Controller.constructor` | fanController.c:124-128 | Start-up: the slopes buffer holds the curve's slopes, and every device starts at temperature 0, speed 0. |
| `Polling.Controller.PollDevice` | fanController.c:186-216 | One device's body of the polling loop. The write requests it returns are `Writes` of the old memory and the reading, so the gate of `WritesFollowGate` holds for the fan calls it makes. Its memory becomes `Step` of the old memory. No other device's entries change. It reports whether it asks for the half sleep. |
| `Polling.Controller.Tick` | fanController.c:183-220 | One pass over all devices: each device's write requests are its own `Writes` and its memory becomes its own `Step`, the controller invariant (including the consistency above) is kept, and the sleep is `SleepTime`. |

## Left out

- NVML library calls (`nvmlInit`, device enumeration, handles, fan counts, temperature reads, speed writes, default-control restores, `nvmlShutdown`). This is a foreign hardware library. Its answers are inputs: `Reading` for temperature queries, and functions from fan index (and speed) to `NvmlReturn` for writes and restores.
- The device initialisation loop (fanController.c:166-179) is not modelled. It only gathers handles and fan counts from the library; they appear in the model as `hasHandle` and `fanCounts`. On failure it calls `cleanup(0)`, which exits with status 0.
- Signal handling (`handleSignal`, the `sigaction` set-up, the `shutdown_requested` flag), the repetition of passes until the flag is seen, and `cleanup`'s `nvmlShutdown` and `exit(0)`. These are asynchronous and process-level behaviour. One pass of the loop is `Polling.Controller.Tick`.
- Parsing the polling interval (`atof`, the fallback to 1.0) and the `usleep` conversion. These are floating point and a sleep. The model takes the interval as a positive `real`, which covers finite `float` values of at least 2^-125: for those the fallback (fanController.c:131-133) leaves a positive value, and their half is again a normal `float`, so halving is exact.
- Polling.Controller.Tick: does not model NaN, infinite or positive intervals below 2^-125. `atof("nan")` gives NaN, which passes the `<= 0` test, and `"inf"` passes as infinity. Halving the smallest subnormal `float` gives 0. Halving a value in [2^-126, 2^-125) with an odd significand (such as 2^-126 + 2^-149) rounds, so `polling_interval / 2` at fanController.c:214 is not the exact half; `usleep` receives 0 microseconds either way. For these, Tick's `sleep == SleepTime(...)` need not be the program's sleep: NaN and infinity are not reals, the smallest subnormal halves to 0, and below 2^-125 an odd significand makes the half round.
- `printf`/`fprintf` diagnostics and `DEBUG` output. Each diagnostic of the start-up checks is a `ConfigError` value instead.
- The fixed `MAX_DEVICES` global arrays. Per-device state is held in arrays sized at run time. The cap itself is `Polling.ClampDeviceCount`.
- NvidiaFanController.py. It is a float-arithmetic variant and a library wrapper, and is not part of this model.
- FanCurve.InitSlopes: does not model 32-bit signed overflow of (F[k+1]-F[k])*100, because integers are unbounded. For curves that pass the start-up checks the value is at most 10000 in magnitude.
- Polling.Controller.PollDevice: for readings of 2^31 or more, `Diff` is the exact distance. The program's `abs((int)t - (int)prev)` casts such values to `int` first.
- FanCurve.FanSpeedFromTemp: requires a curve that passes the start-up checks with strictly increasing temperatures, and the slopes `initSlopes` computed. That is the only way the program calls it. The unsigned arithmetic is proved wrap-free under this condition (`FanCurve.InterpolationBounds`).

## Findings

| source | as written | input that shows it | evidently intended | confidence | as-written member | corrected member |
|---|---|---|---|---|---|---|
| fanController.c:117-118 | The temperature-order check rejects only a decrease (`TempTargets[k + 1] < TempTargets[k]`). Equal adjacent targets pass, and `initSlopes` then divides by `TempTargets[k + 1] - TempTargets[k] == 0` (fanController.c:27-28). | `TempTargets = {55, 55, 80}`, `FanTargets = {40, 60, 100}` | Reject equal adjacent temperatures as well (`<=`), so every slope has a positive divisor. | high; not executed | `FanCurve.Validate`, shown by `FanCurve.ValidationAdmitsFlatStep` and `FanCurve.FlatStepExample` | `FanCurve.ValidateStrict`. It accepts exactly the `Ready` curves (accepted, with strictly increasing temperatures). `Polling.Controller` requires `Ready`; `FanCurve.InitSlopes` needs the strictly increasing temperatures. |
