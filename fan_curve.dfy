/**
  The fixed-point fan curve of the controller: the start-up checks on the
  control points, the slope precomputation and the temperature-to-speed lookup.

  The two constant control-point arrays of the program (temperature targets and
  fan-speed targets, equal in length) are generalised to any pair of
  equal-length, non-empty integer sequences.
 */
module FanCurve {
  import opened Options

  /** Largest value the last temperature target may take. */
  const MaxTempTarget := 90
  /** Largest fan-speed target (percent) the start-up checks allow. */
  const MaxFanTarget := 100
  /** Largest value of a 32-bit unsigned int, plus one. */
  const UInt32Limit := 0x1_0000_0000

  /** The control points: temps[k] degrees maps to fans[k] percent. */
  datatype Curve = Curve(temps: seq<int>, fans: seq<int>)
  {
    /** Equal lengths (the static assert) and at least one point (C arrays are non-empty). */
    predicate Shaped() { |temps| == |fans| >= 1 }

    function Last(): nat
      requires Shaped()
    {
      |temps| - 1
    }
  }

  /** The curve the program ships with: 55 degrees -> 40 %, 80 degrees -> 100 %. */
  const Shipped := Curve([55, 80], [40, 100])

  predicate NonDecreasing(s: seq<int>)
  {
    forall k :: 0 <= k && k + 1 < |s| ==> s[k] <= s[k + 1]
  }

  predicate StrictlyIncreasing(s: seq<int>)
  {
    forall k :: 0 <= k && k + 1 < |s| ==> s[k] < s[k + 1]
  }

  // ---------------------------------------------------------------------------
  // Start-up validation
  // ---------------------------------------------------------------------------

  /** One per diagnostic that makes `main` return 1 before touching the library. */
  datatype ConfigError =
    | TempMinBelowZero
    | TempMaxAbove90
    | FanMinBelowZero
    | FanMaxAbove100
    | FanTargetsUnordered
    | TempTargetsUnordered

  /** The four end-point checks. */
  predicate EndsOk(c: Curve)
    requires c.Shaped()
  {
    c.temps[0] >= 0 && c.temps[c.Last()] <= MaxTempTarget &&
    c.fans[0] >= 0 && c.fans[c.Last()] <= MaxFanTarget
  }

  /** Everything the start-up checks of `main` accept. */
  predicate Accepted(c: Curve)
  {
    c.Shaped() && EndsOk(c) && NonDecreasing(c.fans) && NonDecreasing(c.temps)
  }

  /** What the slope computation needs on top of that: no two equal temperatures. */
  predicate Ready(c: Curve)
  {
    Accepted(c) && StrictlyIncreasing(c.temps)
  }

  /**
    Pair k, k+1 passes the loop's two checks; `strict` also rejects two equal
    temperatures.
   */
  predicate PairOk(c: Curve, k: nat, strict: bool)
    requires c.Shaped() && k < c.Last()
  {
    c.fans[k] <= c.fans[k + 1] &&
    if strict then c.temps[k] < c.temps[k + 1] else c.temps[k] <= c.temps[k + 1]
  }

  /** All adjacent pairs lo, lo+1, ..., hi-1 pass. */
  predicate PairsOk(c: Curve, lo: nat, hi: nat, strict: bool)
    requires c.Shaped() && hi <= c.Last()
  {
    forall m: nat :: lo <= m < hi ==> PairOk(c, m, strict)
  }

  lemma PairsOkAll(c: Curve)
    requires c.Shaped()
    ensures PairsOk(c, 0, c.Last(), false) <==> NonDecreasing(c.fans) && NonDecreasing(c.temps)
    ensures PairsOk(c, 0, c.Last(), true) <==> NonDecreasing(c.fans) && StrictlyIncreasing(c.temps)
  {
    if NonDecreasing(c.fans) && NonDecreasing(c.temps) {
      forall m: nat | m < c.Last() ensures PairOk(c, m, false) {
        assert c.fans[m] <= c.fans[m + 1];
      }
    }
    if NonDecreasing(c.fans) && StrictlyIncreasing(c.temps) {
      forall m: nat | m < c.Last() ensures PairOk(c, m, true) {
        assert c.fans[m] <= c.fans[m + 1];
      }
    }
    if PairsOk(c, 0, c.Last(), false) {
      forall k | 0 <= k && k + 1 < |c.temps| ensures c.fans[k] <= c.fans[k + 1] && c.temps[k] <= c.temps[k + 1] {
        assert PairOk(c, k, false);
      }
    }
    if PairsOk(c, 0, c.Last(), true) {
      forall k | 0 <= k && k + 1 < |c.temps| ensures c.fans[k] <= c.fans[k + 1] && c.temps[k] < c.temps[k + 1] {
        assert PairOk(c, k, true);
      }
    }
  }

  /**
    The pair loop of `main` from pair k on: the first pair at or after k that
    fails a check, or Last() when none does.
   */
  function FirstBadPair(c: Curve, k: nat, strict: bool): (j: nat)
    requires c.Shaped() && k <= c.Last()
    ensures k <= j <= c.Last() && PairsOk(c, k, j, strict)
    ensures j < c.Last() ==> !PairOk(c, j, strict)
    decreases c.Last() - k
  {
    if k == c.Last() || !PairOk(c, k, strict) then k
    else FirstBadPair(c, k + 1, strict)
  }

  /** There is only one first failing pair. */
  lemma FirstFailureUnique(c: Curve, i: nat, j: nat, strict: bool)
    requires c.Shaped() && i <= c.Last() && j <= c.Last()
    requires PairsOk(c, 0, i, strict) && (i < c.Last() ==> !PairOk(c, i, strict))
    requires PairsOk(c, 0, j, strict) && (j < c.Last() ==> !PairOk(c, j, strict))
    ensures i == j
  {
  }

  lemma FirstBadPairIsFirst(c: Curve, strict: bool)
    requires c.Shaped()
    ensures forall i: nat {:trigger PairsOk(c, 0, i, strict)} ::
      i < c.Last() && PairsOk(c, 0, i, strict) && !PairOk(c, i, strict) ==> i == FirstBadPair(c, 0, strict)
  {
    forall i: nat | i < c.Last() && PairsOk(c, 0, i, strict) && !PairOk(c, i, strict)
      ensures i == FirstBadPair(c, 0, strict)
    {
      FirstFailureUnique(c, i, FirstBadPair(c, 0, strict), strict);
    }
  }

  /** The diagnostic for the first failing pair j: the fan check comes first. */
  function PairError(c: Curve, j: nat): Option<ConfigError>
    requires c.Shaped() && j <= c.Last()
  {
    if j == c.Last() then None
    else if c.fans[j + 1] < c.fans[j] then Some(FanTargetsUnordered)
    else Some(TempTargetsUnordered)
  }

  /** The four end-point checks of `main`, in the order it makes them. */
  function EndsCheck(c: Curve): (r: Option<ConfigError>)
    requires c.Shaped()
    ensures r.None? <==> EndsOk(c)
    ensures r == Some(TempMinBelowZero) <==> c.temps[0] < 0
    ensures r == Some(TempMaxAbove90) <==> c.temps[0] >= 0 && c.temps[c.Last()] > MaxTempTarget
    ensures r == Some(FanMinBelowZero) <==>
      c.temps[0] >= 0 && c.temps[c.Last()] <= MaxTempTarget && c.fans[0] < 0
    ensures r == Some(FanMaxAbove100) <==>
      c.temps[0] >= 0 && c.temps[c.Last()] <= MaxTempTarget && c.fans[0] >= 0 &&
      c.fans[c.Last()] > MaxFanTarget
  {
    if c.temps[0] < 0 then Some(TempMinBelowZero)
    else if c.temps[c.Last()] > MaxTempTarget then Some(TempMaxAbove90)
    else if c.fans[0] < 0 then Some(FanMinBelowZero)
    else if c.fans[c.Last()] > MaxFanTarget then Some(FanMaxAbove100)
    else None
  }

  /**
    The start-up checks of `main` as written: `None` means they all pass and the
    program goes on to initialise the library; `Some(e)` means it prints the
    diagnostic for e and returns 1 before any library call. Past the end
    points, the first failing pair decides the diagnostic.
   */
  function Validate(c: Curve): (r: Option<ConfigError>)
    requires c.Shaped()
    ensures r.None? <==> Accepted(c)
    ensures !EndsOk(c) ==> r == EndsCheck(c)
    ensures forall j: nat {:trigger PairsOk(c, 0, j, false)} ::
      EndsOk(c) && j < c.Last() && PairsOk(c, 0, j, false) && !PairOk(c, j, false) ==>
        r == Some(if c.fans[j + 1] < c.fans[j] then FanTargetsUnordered else TempTargetsUnordered)
  {
    PairsOkAll(c);
    FirstBadPairIsFirst(c, false);
    if EndsCheck(c).Some? then EndsCheck(c) else PairError(c, FirstBadPair(c, 0, false))
  }

  /**
    The checks as evidently intended: the same, except that a temperature target
    equal to the one before it is rejected too, so that no slope divides by zero.
   */
  function ValidateStrict(c: Curve): (r: Option<ConfigError>)
    requires c.Shaped()
    ensures r.None? <==> Ready(c)
    ensures !EndsOk(c) ==> r == EndsCheck(c)
    ensures forall j: nat {:trigger PairsOk(c, 0, j, true)} ::
      EndsOk(c) && j < c.Last() && PairsOk(c, 0, j, true) && !PairOk(c, j, true) ==>
        r == Some(if c.fans[j + 1] < c.fans[j] then FanTargetsUnordered else TempTargetsUnordered)
  {
    PairsOkAll(c);
    FirstBadPairIsFirst(c, true);
    if EndsCheck(c).Some? then EndsCheck(c) else PairError(c, FirstBadPair(c, 0, true))
  }

  /**
    The start-up checks accept a curve with two equal adjacent temperature
    targets, which the strict checks reject: the slope of that step would be a
    division by zero.
   */
  lemma ValidationAdmitsFlatStep(c: Curve, k: nat)
    requires Accepted(c) && k < c.Last() && c.temps[k] == c.temps[k + 1]
    ensures Validate(c) == None
    ensures !Ready(c) && ValidateStrict(c) == Some(TempTargetsUnordered)
  {
    assert !PairOk(c, k, true);
    var j := FirstBadPair(c, 0, true);
    assert j <= k;
    assert PairOk(c, j, false);
  }

  /** A concrete curve of that kind: 55 -> 40, 55 -> 60, 80 -> 100. */
  lemma FlatStepExample()
    ensures Validate(Curve([55, 55, 80], [40, 60, 100])) == None
    ensures ValidateStrict(Curve([55, 55, 80], [40, 60, 100])) == Some(TempTargetsUnordered)
  {
    ValidationAdmitsFlatStep(Curve([55, 55, 80], [40, 60, 100]), 0);
  }

  // ---------------------------------------------------------------------------
  // Facts about accepted curves
  // ---------------------------------------------------------------------------

  lemma {:induction false} NonDecreasingFar(s: seq<int>, i: nat, j: nat)
    requires NonDecreasing(s) && i <= j < |s|
    ensures s[i] <= s[j]
    decreases j - i
  {
    if i < j {
      NonDecreasingFar(s, i + 1, j);
    }
  }

  /** Every target of an accepted curve lies in the allowed ranges. */
  lemma AcceptedRanges(c: Curve, k: nat)
    requires Accepted(c) && k <= c.Last()
    ensures 0 <= c.temps[k] <= MaxTempTarget
    ensures 0 <= c.fans[0] <= c.fans[k] <= c.fans[c.Last()] <= MaxFanTarget
  {
    NonDecreasingFar(c.temps, 0, k);
    NonDecreasingFar(c.temps, k, c.Last());
    NonDecreasingFar(c.fans, 0, k);
    NonDecreasingFar(c.fans, k, c.Last());
  }

  // ---------------------------------------------------------------------------
  // Slopes
  // ---------------------------------------------------------------------------

  function Abs(x: int): nat { if x < 0 then -x else x }

  lemma DivBracket(n: nat, b: int)
    requires b > 0
    ensures 0 <= n / b && (n / b) * b <= n < (n / b) * b + b
  {
  }

  lemma MulMonotone(x: int, y: int, m: int)
    requires 0 <= m && x <= y
    ensures x * m <= y * m
  {
  }

  lemma DivMonotone(x: nat, y: nat, b: int)
    requires 0 < b && x <= y
    ensures x / b <= y / b
  {
    DivBracket(x, b);
    DivBracket(y, b);
    if x / b > y / b {
      MulMonotone(y / b + 1, x / b, b);
    }
  }

  /** C's `/` on int: the quotient truncated toward zero (here with a positive divisor). */
  function CDiv(a: int, b: int): (q: int)
    requires b > 0
    ensures Abs(q) * b <= Abs(a) < Abs(q) * b + b
    ensures (q > 0 ==> a > 0) && (q < 0 ==> a < 0)
  {
    if a >= 0 then
      DivBracket(a, b);
      a / b
    else
      DivBracket(-a, b);
      -((-a) / b)
  }

  /** The slope of step k, in percent per degree scaled by 100. */
  function Slope(c: Curve, k: nat): int
    requires c.Shaped() && k < c.Last() && c.temps[k] < c.temps[k + 1]
  {
    CDiv((c.fans[k + 1] - c.fans[k]) * 100, c.temps[k + 1] - c.temps[k])
  }

  /** All the slopes of a curve, step 0 first. */
  function Slopes(c: Curve): seq<int>
    requires c.Shaped() && StrictlyIncreasing(c.temps)
  {
    seq(c.Last(), k requires 0 <= k < c.Last() => Slope(c, k))
  }

  /**
    On a non-decreasing step the slope is non-negative and does not overshoot:
    slope * (temperature step) is at most 100 * (speed step).
   */
  lemma SlopeBounds(c: Curve, k: nat)
    requires Accepted(c) && k < c.Last() && c.temps[k] < c.temps[k + 1]
    ensures 0 <= Slope(c, k) <= 100 * (c.fans[k + 1] - c.fans[k])
    ensures Slope(c, k) * (c.temps[k + 1] - c.temps[k]) <= 100 * (c.fans[k + 1] - c.fans[k])
  {
    var d := c.temps[k + 1] - c.temps[k];
    var s := Slope(c, k);
    assert c.fans[k] <= c.fans[k + 1];
    assert 0 <= s && s * d <= 100 * (c.fans[k + 1] - c.fans[k]);
    MulMonotone(1, d, s);
  }

  /**
    `initSlopes`: fills slopes[0 .. Last-1] with the slope of each step and
    leaves the rest of the buffer alone. Needs strictly increasing temperatures,
    otherwise a step divides by zero.
   */
  method InitSlopes(c: Curve, slopes: array<int>)
    requires c.Shaped() && StrictlyIncreasing(c.temps) && slopes.Length >= c.Last()
    modifies slopes
    ensures slopes[..c.Last()] == Slopes(c)
    ensures slopes[c.Last()..] == old(slopes[c.Last()..])
  {
    for k := 0 to c.Last()
      invariant forall j :: 0 <= j < k ==> slopes[j] == Slope(c, j)
      invariant slopes[c.Last()..] == old(slopes[c.Last()..])
    {
      slopes[k] := CDiv((c.fans[k + 1] - c.fans[k]) * 100, c.temps[k + 1] - c.temps[k]);
    }
  }

  // ---------------------------------------------------------------------------
  // Lookup
  // ---------------------------------------------------------------------------

  /** Temperature t lies in step i: temps[i-1] < t <= temps[i]. */
  predicate InSegment(temps: seq<int>, t: int, i: int)
  {
    1 <= i < |temps| && temps[i - 1] < t <= temps[i]
  }

  lemma {:induction false} SegmentExists(temps: seq<int>, t: int, lo: nat)
    requires lo < |temps| && temps[lo] < t < temps[|temps| - 1]
    ensures exists i :: lo < i && InSegment(temps, t, i)
    decreases |temps| - lo
  {
    if t <= temps[lo + 1] {
      assert InSegment(temps, t, lo + 1);
    } else {
      SegmentExists(temps, t, lo + 1);
    }
  }

  /** On sorted temperatures a temperature lies in at most one step. */
  lemma SegmentUnique(temps: seq<int>, t: int, i: int, j: int)
    requires NonDecreasing(temps) && InSegment(temps, t, i) && InSegment(temps, t, j)
    ensures i == j
  {
    if i < j {
      NonDecreasingFar(temps, i, j - 1);
    } else if j < i {
      NonDecreasingFar(temps, j, i - 1);
    }
  }

  /** The step holding a temperature strictly between the end targets. */
  ghost function Segment(c: Curve, t: int): (i: nat)
    requires Accepted(c) && c.temps[0] < t < c.temps[c.Last()]
    ensures InSegment(c.temps, t, i)
  {
    SegmentExists(c.temps, t, 0);
    var i :| InSegment(c.temps, t, i); i
  }

  /**
    Interpolation inside step k stays between the step's end speeds: the
    truncated slope can only undershoot.
   */
  lemma InterpolationBounds(c: Curve, k: nat, t: int)
    requires Accepted(c) && k < c.Last() && c.temps[k] < t <= c.temps[k + 1]
    ensures 0 <= (t - c.temps[k]) * Slope(c, k) < UInt32Limit
    ensures c.fans[k] <= c.fans[k] + (t - c.temps[k]) * Slope(c, k) / 100 <= c.fans[k + 1]
  {
    var s := Slope(c, k);
    var d := t - c.temps[k];
    SlopeBounds(c, k);
    AcceptedRanges(c, k);
    AcceptedRanges(c, k + 1);
    var dF := c.fans[k + 1] - c.fans[k];
    MulMonotone(0, d, s);
    MulMonotone(d, c.temps[k + 1] - c.temps[k], s);
    assert d * s <= 100 * dF;
    MulMonotone(d, 90, s);
    assert d * s <= 900000;
    DivMonotone(d * s, 100 * dF, 100);
    assert (100 * dF) / 100 == dF;
  }

  /**
    The speed `fanspeedFromT` gives for temperature t: constant for a single
    point, clamped below the first and above the last target, otherwise the
    first speed of t's step plus the truncated fixed-point interpolation.
   */
  ghost function SpeedAt(c: Curve, t: nat): (speed: nat)
    requires Accepted(c)
    ensures c.fans[0] <= speed <= c.fans[c.Last()]
    ensures speed <= MaxFanTarget
  {
    AcceptedRanges(c, c.Last());
    if |c.temps| == 1 then c.fans[0]
    else if t <= c.temps[0] then c.fans[0]
    else if t >= c.temps[c.Last()] then c.fans[c.Last()]
    else
      var i := Segment(c, t);
      InterpolationBounds(c, i - 1, t);
      AcceptedRanges(c, i - 1);
      AcceptedRanges(c, i);
      c.fans[i - 1] + (t - c.temps[i - 1]) * Slope(c, i - 1) / 100
  }

  /**
    `fanspeedFromT` with the slopes `initSlopes` computed. The temperature and
    result are unsigned in the program; for an accepted curve no intermediate
    value wraps (`InterpolationBounds`), so integer arithmetic is exact.
   */
  method FanSpeedFromTemp(c: Curve, slopes: array<int>, t: nat) returns (speed: nat)
    requires Ready(c) && slopes.Length >= c.Last() && slopes[..c.Last()] == Slopes(c)
    ensures speed == SpeedAt(c, t)
  {
    AcceptedRanges(c, c.Last());
    if |c.temps| == 1 {
      return c.fans[0];
    }
    if t <= c.temps[0] {
      return c.fans[0];
    }
    if t >= c.temps[c.Last()] {
      return c.fans[c.Last()];
    }
    var i := 0;
    while t > c.temps[i]
      invariant 0 <= i <= c.Last()
      invariant forall j :: 0 <= j < i ==> c.temps[j] < t
      decreases c.Last() - i
    {
      i := i + 1;
    }
    assert InSegment(c.temps, t, i);
    SegmentUnique(c.temps, t, i, Segment(c, t));
    assert slopes[i - 1] == slopes[..c.Last()][i - 1] == Slopes(c)[i - 1] == Slope(c, i - 1);
    InterpolationBounds(c, i - 1, t);
    AcceptedRanges(c, i - 1);
    speed := c.fans[i - 1] + (t - c.temps[i - 1]) * slopes[i - 1] / 100;
  }

  /** Clamping: at or below the first target and at or above the last, the end speeds. */
  lemma SpeedAtClamps(c: Curve, t: nat)
    requires Ready(c)
    ensures t <= c.temps[0] ==> SpeedAt(c, t) == c.fans[0]
    ensures t >= c.temps[c.Last()] ==> SpeedAt(c, t) == c.fans[c.Last()]
    ensures |c.temps| == 1 ==> SpeedAt(c, t) == c.fans[0]
  {
    if |c.temps| > 1 {
      StrictlyIncreasingFar(c.temps, 0, c.Last());
    }
  }

  lemma {:induction false} StrictlyIncreasingFar(s: seq<int>, i: nat, j: nat)
    requires StrictlyIncreasing(s) && i < j < |s|
    ensures s[i] < s[j]
    decreases j - i
  {
    if i + 1 < j {
      StrictlyIncreasingFar(s, i + 1, j);
    }
  }

  /** The lookup never lowers the speed when the temperature rises, across steps too. */
  lemma SpeedAtMonotone(c: Curve, t1: nat, t2: nat)
    requires Accepted(c) && t1 <= t2
    ensures SpeedAt(c, t1) <= SpeedAt(c, t2)
  {
    if |c.temps| == 1 || t1 <= c.temps[0] || t2 >= c.temps[c.Last()] {
      // one end speed bounds the other side
    } else if t1 >= c.temps[c.Last()] {
      // then t2 >= the last target as well
    } else if t2 <= c.temps[0] {
      // then t1 <= the first target as well
    } else {
      var i1, i2 := Segment(c, t1), Segment(c, t2);
      InterpolationBounds(c, i1 - 1, t1);
      InterpolationBounds(c, i2 - 1, t2);
      if i1 == i2 {
        var s := Slope(c, i1 - 1);
        SlopeBounds(c, i1 - 1);
        MulMonotone(t1 - c.temps[i1 - 1], t2 - c.temps[i1 - 1], s);
        DivMonotone((t1 - c.temps[i1 - 1]) * s, (t2 - c.temps[i1 - 1]) * s, 100);
      } else if i1 < i2 {
        NonDecreasingFar(c.fans, i1, i2 - 1);
      } else {
        NonDecreasingFar(c.temps, i2, i1 - 1);
      }
    }
  }

  /** The shipped curve passes the checks and gives the documented speeds. */
  lemma ShippedCurveSpeeds()
    ensures Validate(Shipped) == None && Ready(Shipped)
    ensures Slopes(Shipped) == [240]
    ensures SpeedAt(Shipped, 40) == 40 && SpeedAt(Shipped, 55) == 40
    ensures SpeedAt(Shipped, 60) == 52 && SpeedAt(Shipped, 63) == 59
    ensures SpeedAt(Shipped, 67) == 68
    ensures SpeedAt(Shipped, 80) == 100 && SpeedAt(Shipped, 90) == 100
  {
    assert Slope(Shipped, 0) == 240;
    assert InSegment(Shipped.temps, 60, 1) && InSegment(Shipped.temps, 63, 1) && InSegment(Shipped.temps, 67, 1);
    SegmentUnique(Shipped.temps, 60, 1, Segment(Shipped, 60));
    SegmentUnique(Shipped.temps, 63, 1, Segment(Shipped, 63));
    SegmentUnique(Shipped.temps, 67, 1, Segment(Shipped, 67));
  }
}
