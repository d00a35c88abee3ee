/**
 * The viewing direction as the input handlers keep it: the yaw `phi`, the
 * pitch `theta` and the camera's field of view, plus the per-frame spin of the
 * displayed sphere. JavaScript computes in doubles; the model uses exact reals.
 */
module Orientation {
  /** `Math.PI / 2` as a double; the proofs use only that it is positive. */
  const HalfPi: real := 1.5707963267948966
  /** Radians of turn per pixel of pointer or touch movement. */
  const PointerSensitivity: real := 0.01
  /** Radians of turn per arrow-key press. */
  const KeyStep: real := 0.1
  /** Degrees of field of view per unit of wheel delta. */
  const WheelSensitivity: real := 0.05
  const MinFov: real := 10.0
  const MaxFov: real := 100.0
  /** The field of view of a fresh camera and of `resetCamera`. */
  const DefaultFov: real := 75.0
  const AutoRotateSpeed: real := 0.5
  /** The sphere's spin per rendered frame while auto-rotating. */
  const RotationPerFrame: real := AutoRotateSpeed * 0.01

  datatype Angles = Angles(phi: real, theta: real)

  predicate PitchInRange(theta: real) {
    -HalfPi <= theta <= HalfPi
  }

  predicate FovInRange(fov: real) {
    MinFov <= fov <= MaxFov
  }

  function Max(a: real, b: real): real { if a >= b then a else b }
  function Min(a: real, b: real): real { if a <= b then a else b }

  /** `Math.max(-Math.PI/2, Math.min(Math.PI/2, theta))`: the nearest pitch in range. */
  function ClampPitch(theta: real): (r: real)
    ensures PitchInRange(r)
    ensures PitchInRange(theta) ==> r == theta
    ensures theta > HalfPi ==> r == HalfPi
    ensures theta < -HalfPi ==> r == -HalfPi
  {
    Max(-HalfPi, Min(HalfPi, theta))
  }

  /** `Math.max(10, Math.min(100, fov))`: the nearest field of view in range. */
  function ClampFov(fov: real): (r: real)
    ensures FovInRange(r)
    ensures FovInRange(fov) ==> r == fov
    ensures fov > MaxFov ==> r == MaxFov
    ensures fov < MinFov ==> r == MinFov
  {
    Max(MinFov, Min(MaxFov, fov))
  }

  /**
   * A pointer or touch move by (dx, dy) pixels: the yaw follows dx without
   * bound, the pitch follows dy and is clamped.
   */
  function PointerTurn(a: Angles, dx: real, dy: real): (r: Angles)
    ensures r.phi == a.phi + dx * PointerSensitivity
    ensures PitchInRange(r.theta)
    ensures PitchInRange(a.theta + dy * PointerSensitivity) ==> r.theta == a.theta + dy * PointerSensitivity
  {
    Angles(a.phi + dx * PointerSensitivity, ClampPitch(a.theta + dy * PointerSensitivity))
  }

  /**
   * The keydown handler's switch on `e.code`. ArrowUp clamps only from below
   * and ArrowDown only from above, which keeps a pitch that starts in range in
   * range; every other key leaves the angles alone.
   */
  function KeyTurn(a: Angles, code: string): (r: Angles)
    ensures PitchInRange(a.theta) ==> PitchInRange(r.theta)
    ensures code == "ArrowLeft" ==> r == Angles(a.phi - KeyStep, a.theta)
    ensures code == "ArrowRight" ==> r == Angles(a.phi + KeyStep, a.theta)
    ensures code == "ArrowUp" || code == "ArrowDown" ==> r.phi == a.phi
    ensures PitchInRange(a.theta) && code == "ArrowUp" ==> r.theta <= a.theta
    ensures PitchInRange(a.theta) && code == "ArrowDown" ==> r.theta >= a.theta
    ensures code !in ["ArrowLeft", "ArrowRight", "ArrowUp", "ArrowDown"] ==> r == a
  {
    if code == "ArrowLeft" then Angles(a.phi - KeyStep, a.theta)
    else if code == "ArrowRight" then Angles(a.phi + KeyStep, a.theta)
    else if code == "ArrowUp" then Angles(a.phi, Max(-HalfPi, a.theta - KeyStep))
    else if code == "ArrowDown" then Angles(a.phi, Min(HalfPi, a.theta + KeyStep))
    else a
  }

  /** ArrowUp moves the pitch a full step unless that would pass -π/2. */
  lemma ArrowUpStep(a: Angles)
    requires PitchInRange(a.theta)
    ensures var r := KeyTurn(a, "ArrowUp");
      r.theta == (if a.theta - KeyStep >= -HalfPi then a.theta - KeyStep else -HalfPi)
  {
  }

  /** ArrowDown moves the pitch a full step unless that would pass π/2. */
  lemma ArrowDownStep(a: Angles)
    requires PitchInRange(a.theta)
    ensures var r := KeyTurn(a, "ArrowDown");
      r.theta == (if a.theta + KeyStep <= HalfPi then a.theta + KeyStep else HalfPi)
  {
  }

  /** The wheel handler: the field of view moves with the wheel and is clamped. */
  function WheelFov(fov: real, deltaY: real): (r: real)
    ensures FovInRange(r)
    ensures FovInRange(fov + deltaY * WheelSensitivity) ==> r == fov + deltaY * WheelSensitivity
    ensures deltaY >= 0.0 ==> r >= Min(fov, MaxFov)
    ensures deltaY <= 0.0 ==> r <= Max(fov, MinFov)
  {
    ClampFov(fov + deltaY * WheelSensitivity)
  }

  /**
   * The spin step of one `animate` frame: the sphere turns by
   * RotationPerFrame exactly when auto-rotate is on, no drag is in progress
   * and a sphere exists.
   */
  function FrameRotation(rotation: real, autoRotating: bool, dragging: bool, displayed: bool): (r: real)
    ensures r == rotation || r == rotation + RotationPerFrame
    ensures r > rotation <==> autoRotating && !dragging && displayed
  {
    if autoRotating && !dragging && displayed then rotation + RotationPerFrame else rotation
  }

  /** The rotation after `frames` frames in which the flags do not change. */
  function Spin(rotation: real, frames: nat, autoRotating: bool, dragging: bool, displayed: bool): real {
    if frames == 0 then rotation
    else FrameRotation(Spin(rotation, frames - 1, autoRotating, dragging, displayed), autoRotating, dragging, displayed)
  }

  /** Auto-rotation advances the sphere at a constant rate per frame, or not at all. */
  lemma {:induction false} SpinIsLinear(rotation: real, frames: nat, autoRotating: bool, dragging: bool, displayed: bool)
    ensures Spin(rotation, frames, autoRotating, dragging, displayed)
      == rotation + (if autoRotating && !dragging && displayed then frames as real * RotationPerFrame else 0.0)
  {
    if frames > 0 {
      SpinIsLinear(rotation, frames - 1, autoRotating, dragging, displayed);
    }
  }
}
