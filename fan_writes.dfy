/**
  The hardware library's answers, as seen by the controller. The library itself
  is not modelled: what it answers to each call is an input (an oracle).
 */
module Nvml {
  /** `nvmlReturn_t`: success or one of the library's error codes. */
  datatype NvmlReturn = Success | Error(code: nat)

  /** What a run of calls that stops at the first failure returns, and how many calls it makes. */
  datatype Run = Run(result: NvmlReturn, calls: nat)

  /**
    Calls 0, 1, ... answered by results[0], results[1], ..., stopping after the
    first one that does not succeed: the calls made are 0 .. calls-1, all but
    the last of them succeeded, and the result is Success only when every call
    was made and succeeded.
   */
  function StopAtFirstFailure(results: seq<NvmlReturn>): (r: Run)
    ensures r.calls <= |results|
    ensures forall j :: 0 <= j < r.calls - 1 ==> results[j].Success?
    ensures r.result.Success? <==> forall j :: 0 <= j < |results| ==> results[j].Success?
    ensures r.result.Success? ==> r.calls == |results|
    ensures !r.result.Success? ==> 1 <= r.calls && results[r.calls - 1] == r.result
  {
    if results == [] then Run(Success, 0)
    else if !results[0].Success? then Run(results[0], 1)
    else
      var rest := StopAtFirstFailure(results[1..]);
      assert forall j :: 1 <= j < |results| ==> results[j] == results[1..][j - 1];
      Run(rest.result, rest.calls + 1)
  }

  /** A failure at j after j successes ends the run there. */
  lemma {:induction false} StopsAt(results: seq<NvmlReturn>, j: nat)
    requires j < |results| && !results[j].Success?
    requires forall k :: 0 <= k < j ==> results[k].Success?
    ensures StopAtFirstFailure(results) == Run(results[j], j + 1)
  {
    if j > 0 {
      StopsAt(results[1..], j - 1);
    }
  }

  /** When every call succeeds, all of them are made. */
  lemma {:induction false} RunsToEnd(results: seq<NvmlReturn>)
    requires forall k :: 0 <= k < |results| ==> results[k].Success?
    ensures StopAtFirstFailure(results) == Run(Success, |results|)
  {
    if results != [] {
      RunsToEnd(results[1..]);
    }
  }
}

/**
  The two per-fan loops of the controller, `setFanSpeed` and `resetFanControl`,
  and the device loop of `cleanup` that restores default control.
 */
module FanWrites {
  import opened Nvml

  /** The answers to `nvmlDeviceSetFanSpeed_v2(device, j, speed)` for j = 0 .. fanCount-1. */
  function SpeedWrites(answer: (nat, nat) -> NvmlReturn, speed: nat, fanCount: nat): seq<NvmlReturn>
  {
    seq(fanCount, j requires 0 <= j => answer(j, speed))
  }

  /** The answers to `nvmlDeviceSetDefaultFanSpeed_v2(device, j)` for j = 0 .. fanCount-1. */
  function DefaultRestores(answer: nat -> NvmlReturn, fanCount: nat): seq<NvmlReturn>
  {
    seq(fanCount, j requires 0 <= j => answer(j))
  }

  /**
    `setFanSpeed`: asks for `targetSpeed` on fans 0, 1, ... of one device in
    order and returns the first failure, without trying the remaining fans.
    `requests` lists the (fan, speed) requests made, in the order they were
    made. `answer(j, s)` is the library's answer to the request for speed s on
    fan j.
   */
  method SetFanSpeed(answer: (nat, nat) -> NvmlReturn, targetSpeed: nat, fanCount: nat)
    returns (r: NvmlReturn, requests: seq<(nat, nat)>)
    ensures Run(r, |requests|) == StopAtFirstFailure(SpeedWrites(answer, targetSpeed, fanCount))
    ensures forall j :: 0 <= j < |requests| ==> requests[j] == (j, targetSpeed)
    ensures r.Success? <==> forall j: nat :: j < fanCount ==> answer(j, targetSpeed).Success?
    ensures fanCount == 0 ==> r == Success && requests == []
  {
    ghost var results := SpeedWrites(answer, targetSpeed, fanCount);
    requests := [];
    for j := 0 to fanCount
      invariant |requests| == j
      invariant forall k :: 0 <= k < j ==> requests[k] == (k, targetSpeed)
      invariant forall k :: 0 <= k < j ==> results[k].Success? && answer(k, targetSpeed).Success?
    {
      requests := requests + [(j, targetSpeed)];
      var result := answer(j, targetSpeed);
      if !result.Success? {
        StopsAt(results, j);
        return result, requests;
      }
    }
    RunsToEnd(results);
    return Success, requests;
  }

  /**
    `resetFanControl`: hands fans 0, 1, ... of one device back to default
    control in order and returns the first failure, without trying the
    remaining fans; `calls` is how many fans were asked.
   */
  method ResetFanControl(answer: nat -> NvmlReturn, fanCount: nat) returns (r: NvmlReturn, calls: nat)
    ensures Run(r, calls) == StopAtFirstFailure(DefaultRestores(answer, fanCount))
    ensures r.Success? <==> forall j: nat :: j < fanCount ==> answer(j).Success?
    ensures fanCount == 0 ==> r == Success && calls == 0
  {
    ghost var results := DefaultRestores(answer, fanCount);
    calls := 0;
    for j := 0 to fanCount
      invariant calls == j
      invariant forall k :: 0 <= k < j ==> results[k].Success? && answer(k).Success?
    {
      var result := answer(j);
      calls := calls + 1;
      if !result.Success? {
        StopsAt(results, j);
        return result, calls;
      }
    }
    RunsToEnd(results);
    return Success, calls;
  }

  /**
    The device loop of `cleanup`: every device whose handle was obtained gets
    `resetFanControl`, whatever the earlier devices answered; a device without
    a handle is skipped. `calls[i]` is how many fans of device i were asked.
   */
  method Cleanup(hasHandle: seq<bool>, fanCounts: seq<nat>, answers: seq<nat -> NvmlReturn>)
    returns (calls: seq<nat>)
    requires |fanCounts| == |hasHandle| && |answers| == |hasHandle|
    ensures |calls| == |hasHandle|
    ensures forall i :: 0 <= i < |hasHandle| ==>
      calls[i] == if hasHandle[i] then StopAtFirstFailure(DefaultRestores(answers[i], fanCounts[i])).calls else 0
  {
    calls := [];
    for i := 0 to |hasHandle|
      invariant |calls| == i
      invariant forall k :: 0 <= k < i ==>
        calls[k] == if hasHandle[k] then StopAtFirstFailure(DefaultRestores(answers[k], fanCounts[k])).calls else 0
    {
      var n := 0;
      if hasHandle[i] {
        var _, made := ResetFanControl(answers[i], fanCounts[i]);
        n := made;
      }
      calls := calls + [n];
    }
  }
}
