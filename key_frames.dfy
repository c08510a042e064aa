/** Piecewise keyframe animation (src/key_frames.rs), with the animated
    value instantiated at `f32` and modelled as a real. */
module KeyFrameAnimation {
  import opened Common
  import Lerps

  /** `Easing`.  `EaseInOut` needs the cosine, which is a parameter of the
      model: `cosPi(x)` stands for `cos(x * PI)`. */
  datatype Easing = Linear | Step | EaseInCubic | EaseOutCubic | EaseInOut

  /** `f32::round`: to the nearest integer, halves away from zero. */
  function Round(x: real): (r: int)
    ensures x - 0.5 <= r as real <= x + 0.5
    ensures x >= 0.0 ==> r >= 0
  {
    if x >= 0.0 then (x + 0.5).Floor else -((-x + 0.5).Floor)
  }

  /** `Easing::y`. */
  function Y(e: Easing, x: real, cosPi: real -> real): real
  {
    match e
    case Linear => x
    case Step => Round(x) as real
    case EaseInCubic => x * x * x
    case EaseOutCubic =>
      var m := x - 1.0;
      1.0 + m * m * m
    case EaseInOut => 0.5 * (1.0 - cosPi(x))
  }

  /** Every easing maps 0 to 0 and 1 to 1 (`EaseInOut` given cos 0 = 1 and
      cos PI = -1); the cubic ones stay within [0, 1] on [0, 1]. */
  lemma EasingEndpoints(e: Easing, cosPi: real -> real, x: real)
    requires cosPi(0.0) == 1.0 && cosPi(1.0) == -1.0
    ensures Y(e, 0.0, cosPi) == 0.0 && Y(e, 1.0, cosPi) == 1.0
    ensures 0.0 <= x <= 1.0 && e in {Linear, EaseInCubic, EaseOutCubic} ==> 0.0 <= Y(e, x, cosPi) <= 1.0
  {
    assert Round(0.0) == 0 && Round(1.0) == 1;
    if 0.0 <= x <= 1.0 {
      CubeBounds(x);
      CubeBounds(1.0 - x);
    }
  }

  lemma CubeBounds(x: real)
    requires 0.0 <= x <= 1.0
    ensures 0.0 <= x * x * x <= 1.0
    ensures (x - 1.0) * (x - 1.0) * (x - 1.0) == -((1.0 - x) * (1.0 - x) * (1.0 - x))
  {
    assert 0.0 <= x * x <= 1.0 by {
      assert x * x <= x * 1.0;
    }
    assert x * x * x <= x * x * 1.0;
  }

  /** One `(time, value, easing)` entry. */
  datatype Frame = Frame(t: real, v: real, easing: Easing)

  /** The invariant `KeyFrames::new` establishes and the private field
      keeps: at least one frame, times strictly increasing. */
  predicate Valid(frames: seq<Frame>)
  {
    |frames| > 0 && forall i, j :: 0 <= i < j < |frames| ==> frames[i].t < frames[j].t
  }

  datatype KeyFramesError = NoFrames | NotIncreasing

  /** `KeyFrames::new`: the emptiness assertion, then the walk with `prev`
      starting at minus infinity (`None`) asserting each time exceeds the
      previous one.  The separate `is_sorted_by` assertion states the same
      condition and is folded into this walk. */
  method New(frames: seq<Frame>) returns (r: Result<seq<Frame>, KeyFramesError>)
    ensures r.Ok? <==> Valid(frames)
    ensures r.Ok? ==> r.value == frames
    ensures r == Err(NoFrames) <==> frames == []
  {
    if |frames| == 0 {
      return Err(NoFrames);
    }
    var prev: Option<real> := None;
    var i := 0;
    while i < |frames|
      invariant 0 <= i <= |frames|
      invariant forall a, b :: 0 <= a < b < i ==> frames[a].t < frames[b].t
      invariant prev == if i == 0 then None else Some(frames[i - 1].t)
    {
      if prev.Some? && !(frames[i].t > prev.value) {
        return Err(NotIncreasing);
      }
      prev := Some(frames[i].t);
      i := i + 1;
    }
    return Ok(frames);
  }

  /** The frames with normalised times: a single frame gets time 0;
      otherwise each time is shifted by the first and divided by the span
      from the first to the last. */
  function Normalized(frames: seq<Frame>): (res: seq<Frame>)
    requires Valid(frames)
    ensures |res| == |frames|
  {
    if |frames| == 1 then [frames[0].(t := 0.0)]
    else
      var min := frames[0].t;
      var span := frames[|frames| - 1].t - min;
      seq(|frames|, i requires 0 <= i < |frames| => frames[i].(t := (frames[i].t - min) / span))
  }

  /** `normalize_time`: rewrites the frame times one by one. */
  method NormalizeTime(frames: seq<Frame>) returns (res: seq<Frame>)
    requires Valid(frames)
    ensures res == Normalized(frames)
  {
    if |frames| == 1 {
      return [frames[0].(t := 0.0)];
    }
    var min := frames[0].t;
    var max := frames[|frames| - 1].t;
    var span := max - min;
    res := frames;
    var i := 0;
    while i < |res|
      invariant 0 <= i <= |res| == |frames|
      invariant forall j :: 0 <= j < i ==> res[j] == frames[j].(t := (frames[j].t - min) / span)
      invariant forall j :: i <= j < |res| ==> res[j] == frames[j]
    {
      res := res[i := res[i].(t := (res[i].t - min) / span)];
      i := i + 1;
    }
  }

  /** Normalising keeps values, easings and the order of the times, and maps
      the times into [0, 1], the first to 0 and (for two or more frames) the
      last to 1. */
  lemma NormalizedIsUnitRange(frames: seq<Frame>)
    requires Valid(frames)
    ensures Valid(Normalized(frames))
    ensures forall i :: 0 <= i < |frames| ==>
              Normalized(frames)[i].v == frames[i].v && Normalized(frames)[i].easing == frames[i].easing
    ensures forall i :: 0 <= i < |frames| ==> 0.0 <= Normalized(frames)[i].t <= 1.0
    ensures Normalized(frames)[0].t == 0.0
    ensures |frames| > 1 ==> Normalized(frames)[|frames| - 1].t == 1.0
  {
    var n := Normalized(frames);
    if |frames| > 1 {
      forall i, j | 0 <= i < j < |frames| ensures n[i].t < n[j].t {
        NormalizedOrdered(frames, i, j);
      }
      forall i | 0 <= i < |frames| ensures 0.0 <= n[i].t <= 1.0 {
        NormalizedTimeInUnit(frames, i);
      }
      NormalizedAt(frames, 0);
      NormalizedAt(frames, |frames| - 1);
      assert frames[0].t < frames[|frames| - 1].t;
      var span := frames[|frames| - 1].t - frames[0].t;
      assert frames[0].t - frames[0].t == 0.0;
      DivSelf(span);
    }
  }

  lemma NormalizedAt(frames: seq<Frame>, i: nat)
    requires Valid(frames) && 1 < |frames| && i < |frames|
    ensures Normalized(frames)[i].t == (frames[i].t - frames[0].t) / (frames[|frames| - 1].t - frames[0].t)
  {
  }

  lemma NormalizedOrdered(frames: seq<Frame>, i: nat, j: nat)
    requires Valid(frames) && 1 < |frames| && i < j < |frames|
    ensures Normalized(frames)[i].t < Normalized(frames)[j].t
  {
    NormalizedAt(frames, i);
    NormalizedAt(frames, j);
    DivMonotone(frames[i].t - frames[0].t, frames[j].t - frames[0].t, frames[|frames| - 1].t - frames[0].t);
  }

  lemma NormalizedTimeInUnit(frames: seq<Frame>, i: nat)
    requires Valid(frames) && 1 < |frames| && i < |frames|
    ensures 0.0 <= Normalized(frames)[i].t <= 1.0
  {
    var last := |frames| - 1;
    if 0 < i { assert frames[0].t < frames[i].t; }
    if i < last { assert frames[i].t < frames[last].t; }
    NormalizedAt(frames, i);
    UnitRatio(frames[i].t - frames[0].t, frames[last].t - frames[0].t);
  }

  /** The `find_map` of `get`: the index of the first frame whose time
      exceeds `t`, if any. */
  function FirstGreater(frames: seq<Frame>, t: real): (r: Option<nat>)
    ensures r.Some? ==> r.value < |frames| && frames[r.value].t > t &&
                        forall j :: 0 <= j < r.value ==> frames[j].t <= t
    ensures r.None? ==> forall j :: 0 <= j < |frames| ==> frames[j].t <= t
  {
    if frames == [] then None
    else if frames[0].t > t then Some(0)
    else
      match FirstGreater(frames[1..], t)
      case None => None
      case Some(i) => Some(i + 1)
  }

  /** `KeyFrames::get`. */
  function Get(frames: seq<Frame>, t: real, cosPi: real -> real): real
    requires Valid(frames)
  {
    match FirstGreater(frames, t)
    case None => frames[|frames| - 1].v
    case Some(i) =>
      if i == 0 then frames[0].v
      else
        var lo := frames[i - 1];
        var factor := (t - lo.t) / (frames[i].t - lo.t);
        Lerps.LerpReal(lo.v, frames[i].v, Y(lo.easing, factor, cosPi))
  }

  /** Before the first frame `get` holds the first value, from the last
      frame on it holds the last value, and between frames i-1 and i it
      interpolates with factor (t - t[i-1]) / (t[i] - t[i-1]) in [0, 1),
      eased by frame i-1's easing. */
  lemma GetCases(frames: seq<Frame>, t: real, cosPi: real -> real, i: nat)
    requires Valid(frames)
    ensures t < frames[0].t ==> Get(frames, t, cosPi) == frames[0].v
    ensures t >= frames[|frames| - 1].t ==> Get(frames, t, cosPi) == frames[|frames| - 1].v
    ensures 0 < i < |frames| && frames[i - 1].t <= t < frames[i].t ==>
              var factor := (t - frames[i - 1].t) / (frames[i].t - frames[i - 1].t);
              0.0 <= factor < 1.0 &&
              Get(frames, t, cosPi) ==
                Lerps.LerpReal(frames[i - 1].v, frames[i].v, Y(frames[i - 1].easing, factor, cosPi))
  {
    if 0 < i < |frames| && frames[i - 1].t <= t < frames[i].t {
      UnitRatio(t - frames[i - 1].t, frames[i].t - frames[i - 1].t);
    }
  }

  /** At each frame's own time `get` returns that frame's value, whatever the
      easings (given cos 0 = 1). */
  lemma GetAtFrameTime(frames: seq<Frame>, j: nat, cosPi: real -> real)
    requires Valid(frames) && j < |frames|
    requires cosPi(0.0) == 1.0
    ensures Get(frames, frames[j].t, cosPi) == frames[j].v
  {
    var t := frames[j].t;
    if j + 1 < |frames| {
      var e := frames[j].easing;
      assert Y(e, 0.0, cosPi) == 0.0 by {
        assert Round(0.0) == 0;
      }
      assert frames[j].t < frames[j + 1].t;
      DivSelf(frames[j + 1].t - frames[j].t);
      assert t - frames[j].t == 0.0;
      GetCases(frames, t, cosPi, j + 1);
      Lerps.LerpRealEndpoints(frames[j].v, frames[j + 1].v, 0.0);
    } else {
      GetCases(frames, t, cosPi, 0);
    }
  }

  /** The three frames 0 => -5, 3 => -10, 4 => 20, all linear. */
  function ExampleFrames(): seq<Frame>
  {
    [Frame(0.0, -5.0, Linear), Frame(3.0, -10.0, Linear), Frame(4.0, 20.0, Linear)]
  }

  /** The values the source's own example expects. */
  lemma ExampleValues(cosPi: real -> real)
    ensures Valid(ExampleFrames())
    ensures Get(ExampleFrames(), -22.0, cosPi) == -5.0
    ensures Get(ExampleFrames(), 5.0, cosPi) == 20.0
    ensures Get(ExampleFrames(), 3.5, cosPi) == 5.0
  {
    var f := ExampleFrames();
    GetCases(f, 3.5, cosPi, 2);
  }
}
