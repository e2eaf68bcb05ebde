/**
 * The per-frame upload of the ripple list: a flat position array of two
 * floats per ripple, a time array of one float per ripple, and the count.
 */
module Uniforms {
  import opened Geometry
  import opened Ripples

  /** What the shader receives in `ripple_positions`, `ripple_times` and `ripple_count`. */
  datatype Upload = Upload(positions: seq<real>, times: seq<real>, count: nat)

  /** The layout the shader relies on: a pair of floats and one time per ripple. */
  predicate WellFormed(u: Upload) {
    |u.positions| == 2 * u.count && |u.times| == u.count
  }

  /** Every ripple's position, flattened into `x0, y0, x1, y1, ...`. */
  function Flatten(log: seq<RipplePoint>): (r: seq<real>)
    ensures |r| == 2 * |log|
    ensures forall i :: 0 <= i < |log| ==> r[2 * i] == log[i].pos.x && r[2 * i + 1] == log[i].pos.y
  {
    if log == [] then []
    else
      var rest := Flatten(log[1..]);
      assert forall i :: 1 <= i < |log| ==> log[i] == log[1..][i - 1];
      [log[0].pos.x, log[0].pos.y] + rest
  }

  /** Every ripple's spawn time, in list order. */
  function Times(log: seq<RipplePoint>): (r: seq<real>)
    ensures |r| == |log|
    ensures forall i :: 0 <= i < |log| ==> r[i] == log[i].time
  {
    if log == [] then []
    else
      assert forall i :: 1 <= i < |log| ==> log[i] == log[1..][i - 1];
      [log[0].time] + Times(log[1..])
  }

  /** The ripples as the shader reads them back: `ripple_positions[i]`, `ripple_times[i]` for `i < ripple_count`. */
  function Unpack(u: Upload): (log: seq<RipplePoint>)
    requires WellFormed(u)
    ensures |log| == u.count
  {
    seq(u.count, i requires 0 <= i < u.count =>
      RipplePoint(Vec2(u.positions[2 * i], u.positions[2 * i + 1]), u.times[i]))
  }

  /**
   * The upload: positions, times and count all taken from the list. The
   * layout is well formed, the shader reads the list back unchanged, and a
   * list within capacity fits the shader's arrays of MAX_RIPPLES entries.
   */
  function Pack(log: seq<RipplePoint>): (u: Upload)
    ensures WellFormed(u) && u.count == |log|
    ensures Unpack(u) == log
    ensures |log| <= MAX_RIPPLES ==> u.count <= MAX_RIPPLES
  {
    Upload(Flatten(log), Times(log), |log|)
  }

  /** Reading back and re-packing gives the same upload: packing is a bijection onto well-formed uploads. */
  lemma PackOfUnpack(u: Upload)
    requires WellFormed(u)
    ensures Pack(Unpack(u)) == u
  {
    var log := Unpack(u);
    var flat := Flatten(log);
    forall k | 0 <= k < |u.positions|
      ensures flat[k] == u.positions[k]
    {
      var i := k / 2;
      assert log[i].pos == Vec2(u.positions[2 * i], u.positions[2 * i + 1]);
      assert k == 2 * i || k == 2 * i + 1;
    }
    assert flat == u.positions;
    assert Times(log) == u.times;
  }
}
