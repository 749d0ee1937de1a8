/** The motion command computed from the chosen candidate: a yaw from the
    horizontal offset of its centre, and a forward term from the relative
    change of its area, each with a deadband. Doubles are modelled as reals. */
module Motion {
  import opened Geometry

  const MIN_DIFF_FOR_MOVE: real := 25.0
  const MAX_YAW_VELOCITY: real := 0.5
  const MIN_AREA_DIFF: real := 50.0
  const MAX_LINEAR_VELOCITY: real := 0.75

  /** What the callback would place in the `move_base` goal: the forward
      position `nextX` and the yaw of its orientation. */
  datatype Command = Command(nextX: real, yaw: real)

  /** C++ `w / 2` on int: the quotient truncated toward zero. */
  function Half(w: int): (q: int)
    ensures w >= 0 ==> 0 <= w - 2 * q <= 1
    ensures w < 0 ==> -1 <= w - 2 * q <= 0
  {
    if w >= 0 then w / 2 else -((-w) / 2)
  }

  /** `bestFit.x + bestFit.width/2`, with integer division. */
  function Center(r: Rect): int { r.x + Half(r.width) }

  /** `bestFit.width * bestFit.height`. */
  function Area(r: Rect): int { r.width * r.height }

  /** `difference`: the centre's offset from the middle column `cols/2.0`. */
  function Offset(center: int, cols: int): real {
    center as real - cols as real / 2.0
  }

  /** The yaw: zero inside the deadband, otherwise the offset as a fraction of
      half the frame width, scaled by MAX_YAW_VELOCITY. */
  function Yaw(center: int, cols: int): real
    requires cols > 0
  {
    var middleX := cols as real / 2.0;
    var difference := Offset(center, cols);
    if difference < -MIN_DIFF_FOR_MOVE || difference > MIN_DIFF_FOR_MOVE then
      MAX_YAW_VELOCITY * difference / middleX
    else 0.0
  }

  /** The forward term `nextX`: zero unless a positive previous area exists and
      the area changed by more than the deadband, otherwise the relative area
      change scaled by MAX_LINEAR_VELOCITY. */
  function Forward(area: int, prevArea: real): real {
    if prevArea > 0.0 then
      var areaDifference := area as real - prevArea;
      if areaDifference < -MIN_AREA_DIFF || areaDifference > MIN_AREA_DIFF then
        MAX_LINEAR_VELOCITY * areaDifference / prevArea
      else 0.0
    else 0.0
  }

  /** The command for a matched candidate, given the area remembered from the
      previous match and the frame width. */
  function CommandFor(best: Rect, prevArea: real, cols: int): Command
    requires cols > 0
  {
    Command(Forward(Area(best), prevArea), Yaw(Center(best), cols))
  }

  /** The yaw is zero exactly when the offset lies within [-25, 25]. */
  lemma YawDeadband(center: int, cols: int)
    requires cols > 0
    ensures Yaw(center, cols) == 0.0 <==> -25.0 <= Offset(center, cols) <= 25.0
  {
    var m, d := cols as real / 2.0, Offset(center, cols);
    if d < -25.0 || d > 25.0 {
      assert Yaw(center, cols) * m == 0.5 * d;
    }
  }

  /** Outside the deadband the yaw has the sign of the offset and is
      MAX_YAW_VELOCITY times the offset's fraction of half the width. */
  lemma YawSignAndScale(center: int, cols: int)
    requires cols > 0
    requires Offset(center, cols) < -25.0 || Offset(center, cols) > 25.0
    ensures Yaw(center, cols) * (cols as real / 2.0) == MAX_YAW_VELOCITY * Offset(center, cols)
    ensures Offset(center, cols) > 0.0 ==> Yaw(center, cols) > 0.0
    ensures Offset(center, cols) < 0.0 ==> Yaw(center, cols) < 0.0
  {
    var m, d := cols as real / 2.0, Offset(center, cols);
    assert Yaw(center, cols) * m == 0.5 * d;
  }

  /** A ratio d / m with |d| <= m, scaled by MAX_YAW_VELOCITY, stays within
      MAX_YAW_VELOCITY in magnitude. */
  lemma ScaledRatioBounded(d: real, m: real)
    requires m > 0.0 && -m <= d <= m
    ensures -MAX_YAW_VELOCITY <= MAX_YAW_VELOCITY * d / m <= MAX_YAW_VELOCITY
  {
    var q := MAX_YAW_VELOCITY * d / m;
    assert q * m == 0.5 * d;
  }

  /** With the centre inside the frame, the yaw never exceeds
      MAX_YAW_VELOCITY in magnitude. */
  lemma YawBounded(center: int, cols: int)
    requires cols > 0 && 0 <= center <= cols
    ensures -MAX_YAW_VELOCITY <= Yaw(center, cols) <= MAX_YAW_VELOCITY
  {
    var m := cols as real / 2.0;
    ScaledRatioBounded(center as real - m, m);
  }

  /** The forward term is zero exactly when there is no positive previous area
      (the initial -1.0 included) or the area changed by at most 50. */
  lemma ForwardDeadband(area: int, prevArea: real)
    ensures Forward(area, prevArea) == 0.0 <==>
      prevArea <= 0.0 || -50.0 <= area as real - prevArea <= 50.0
  {
    if prevArea > 0.0 {
      var d := area as real - prevArea;
      if d < -50.0 || d > 50.0 {
        assert Forward(area, prevArea) * prevArea == 0.75 * d;
      }
    }
  }

  /** Outside the deadband the forward term has the sign of the area change
      and is MAX_LINEAR_VELOCITY times the relative change. */
  lemma ForwardSignAndScale(area: int, prevArea: real)
    requires prevArea > 0.0
    requires area as real - prevArea < -50.0 || area as real - prevArea > 50.0
    ensures Forward(area, prevArea) * prevArea == MAX_LINEAR_VELOCITY * (area as real - prevArea)
    ensures area as real > prevArea ==> Forward(area, prevArea) > 0.0
    ensures area as real < prevArea ==> Forward(area, prevArea) < 0.0
  {
    var d := area as real - prevArea;
    assert Forward(area, prevArea) * prevArea == 0.75 * d;
  }

  /** A shrinking candidate never asks for more than MAX_LINEAR_VELOCITY
      backwards: the relative change of a non-negative area is at least -1. */
  lemma ForwardBoundedBelow(area: int, prevArea: real)
    requires area >= 0
    ensures Forward(area, prevArea) >= -MAX_LINEAR_VELOCITY
  {
    if prevArea > 0.0 {
      var d := area as real - prevArea;
      if d < -50.0 || d > 50.0 {
        var f := Forward(area, prevArea);
        assert f * prevArea == 0.75 * d;
        assert f * prevArea >= -0.75 * prevArea;
      }
    }
  }
}
