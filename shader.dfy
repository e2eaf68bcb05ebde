/**
 * The fragment shader's ripple loop: for one pixel, every uploaded ripple
 * adds a decaying brightness term and a decaying radial displacement of the
 * texture coordinate.
 *
 * The wave itself (a sine and a cosine of `len * 20.0 - age * 12.0`, with
 * `len` the Euclidean distance from the ripple centre) is not modelled: an
 * oscillator supplies, for each clip-space offset from the centre and each
 * age, the sine value and the cosine divided by `len`. Only the linear decay
 * factor that multiplies both terms is modelled exactly.
 */
module Shader {
  import opened Wrappers
  import opened Geometry
  import opened Ripples
  import opened Uniforms

  /**
   * The wave of one ripple at one pixel: `sine` stands for
   * `sin(len * 20.0 - age * 12.0)` and `radial` for
   * `cos(len * 20.0 - age * 12.0) / len`.
   */
  datatype Wave = Wave(sine: real, radial: real)

  /** The wave at a clip-space offset from the ripple centre and an age in seconds. */
  type Oscillator = (Vec2, real) -> Wave

  /** Amplitude of the brightness term. */
  const BRIGHTNESS: real := 0.05
  /** Amplitude of the displacement term. */
  const DISPLACEMENT: real := 0.01

  /**
   * Linear decay `max(0.0, 1.0 - age * 2.0)`: never negative, at most 1 exactly
   * for non-negative ages, and zero exactly from age 0.5 on.
   */
  function Strength(age: real): (s: real)
    ensures 0.0 <= s
    ensures s <= 1.0 <==> 0.0 <= age
    ensures s == 0.0 <==> age >= 0.5
  {
    if 0.0 < 1.0 - age * 2.0 then 1.0 - age * 2.0 else 0.0
  }

  /** Decay never increases with age. */
  lemma StrengthDecays(a1: real, a2: real)
    requires a1 <= a2
    ensures Strength(a2) <= Strength(a1)
  {
  }

  /**
   * The brightness term `sine * 0.05 * strength`: zero once the ripple has
   * decayed, and within the amplitude for a unit wave and a non-negative age.
   */
  function BrightnessTerm(w: Wave, s: real): (delta: real)
    ensures s == 0.0 ==> delta == 0.0
    ensures -1.0 <= w.sine <= 1.0 && 0.0 <= s <= 1.0 ==> -BRIGHTNESS <= delta <= BRIGHTNESS
  {
    var delta := w.sine * BRIGHTNESS * s;
    assert -1.0 <= w.sine <= 1.0 && 0.0 <= s <= 1.0 ==> -BRIGHTNESS <= delta <= BRIGHTNESS by {
      if -1.0 <= w.sine <= 1.0 && 0.0 <= s <= 1.0 {
        if 0.0 <= w.sine {
          assert w.sine * s <= 1.0 * s;
        } else {
          assert (-w.sine) * s <= 1.0 * s;
        }
      }
    }
    delta
  }

  /**
   * The displacement term `d / len * cos(..) * 0.01 * strength`. At the
   * ripple centre (`d` zero, hence `len` zero) the division is undefined,
   * whatever the strength; elsewhere a decayed ripple displaces nothing.
   */
  function DisplacementTerm(d: Vec2, w: Wave, s: real): (v: Option<Vec2>)
    ensures v.None? <==> d == Zero
    ensures s == 0.0 && d != Zero ==> v == Some(Zero)
  {
    if d == Zero then None else Some(Scale(d, w.radial * DISPLACEMENT * s))
  }

  /** The shader's two accumulators: the displaced texture coordinate (`ripple`) and `total_delta`. */
  datatype Sample = Sample(ripple: Option<Vec2>, totalDelta: real)

  /**
   * One iteration of the ripple loop for the pixel at clip position `p`. A
   * ripple old enough to have decayed leaves both accumulators unchanged,
   * unless the pixel sits exactly on its centre.
   */
  function Step(acc: Sample, p: Vec2, now: real, r: RipplePoint, osc: Oscillator): (next: Sample)
    ensures Strength(now - r.time) == 0.0 ==> next.totalDelta == acc.totalDelta
    ensures Strength(now - r.time) == 0.0 && Sub(p, ToClip(r.pos)) != Zero ==> next == acc
    ensures Sub(p, ToClip(r.pos)) == Zero ==> next.ripple == None
    ensures acc.ripple == None ==> next.ripple == None
    ensures acc.ripple.Some? && Sub(p, ToClip(r.pos)) != Zero ==> next.ripple.Some?
  {
    var age := now - r.time;
    var d := Sub(p, ToClip(r.pos));
    var w := osc(d, age);
    var s := Strength(age);
    var term := DisplacementTerm(d, w, s);
    var ripple := if acc.ripple.Some? && term.Some? then Some(Add(acc.ripple.value, term.value)) else None;
    assert acc.ripple.Some? && term == Some(Zero) ==> ripple == acc.ripple by {
      if acc.ripple.Some? && term == Some(Zero) {
        assert Add(acc.ripple.value, Zero) == acc.ripple.value;
      }
    }
    Sample(ripple, acc.totalDelta + BrightnessTerm(w, s))
  }

  /**
   * Both accumulators after the loop has gone over `log` in order, for the
   * pixel at texture coordinate `uv` and the current time `now`. When every
   * ripple has decayed and none is centred on the pixel, the pixel is drawn
   * undisturbed: at its own coordinate, with no brightness change.
   */
  function Field(uv: Vec2, now: real, log: seq<RipplePoint>, osc: Oscillator): (r: Sample)
    ensures AllInert(uv, now, log) ==> r == Sample(Some(uv), 0.0)
    decreases |log|
  {
    if log == [] then Sample(Some(uv), 0.0)
    else Step(Field(uv, now, log[..|log| - 1], osc), ToClip(uv), now, log[|log| - 1], osc)
  }

  /**
   * The ripples that have not yet decayed at time `now`: a ripple of the list
   * is in the result exactly when its decay factor is still positive.
   */
  function Live(now: real, log: seq<RipplePoint>): (r: seq<RipplePoint>)
    ensures |r| <= |log|
    ensures forall x {:trigger x in r} :: x in r <==> x in log && Strength(now - x.time) > 0.0
    decreases |log|
  {
    if log == [] then []
    else
      var last := log[|log| - 1];
      var prefix := Live(now, log[..|log| - 1]);
      assert log == log[..|log| - 1] + [last];
      if Strength(now - last.time) > 0.0 then prefix + [last] else prefix
  }

  /** Filtering keeps list order: the live ripples of two lists one after the other are theirs, one after the other. */
  lemma {:induction false} LiveConcat(now: real, a: seq<RipplePoint>, b: seq<RipplePoint>)
    ensures Live(now, a + b) == Live(now, a) + Live(now, b)
    decreases |b|
  {
    if b == [] {
      assert a + b == a;
    } else {
      var prefix, last := b[..|b| - 1], b[|b| - 1];
      LiveConcat(now, a, prefix);
      var ab := a + b;
      assert ab[..|ab| - 1] == a + prefix && ab[|ab| - 1] == last;
      var kept := if Strength(now - last.time) > 0.0 then [last] else [];
      assert Live(now, ab) == Live(now, a + prefix) + kept;
      assert Live(now, b) == Live(now, prefix) + kept;
      assert Live(now, a) + Live(now, prefix) + kept == Live(now, a) + (Live(now, prefix) + kept);
    }
  }

  /** Every ripple of the list has decayed at time `now`, and none is centred on the pixel at `uv`. */
  predicate AllInert(uv: Vec2, now: real, log: seq<RipplePoint>) {
    forall i :: 0 <= i < |log| ==> Strength(now - log[i].time) == 0.0 && log[i].pos != uv
  }

  /** The loop over one more ripple of the list is one more iteration. */
  lemma FieldSnoc(uv: Vec2, now: real, log: seq<RipplePoint>, i: nat, osc: Oscillator)
    requires i < |log|
    ensures Field(uv, now, log[..i + 1], osc) == Step(Field(uv, now, log[..i], osc), ToClip(uv), now, log[i], osc)
  {
    assert log[..i + 1][..i] == log[..i];
  }

  /**
   * The body of the fragment shader's loop, for the pixel at clip position
   * `p` and the uploaded ripple at texture position `pos` spawned at `spawn`:
   * it updates the two accumulators as one Step of the model.
   */
  method Accumulate(ripple: Option<Vec2>, totalDelta: real, p: Vec2, time: real, pos: Vec2, spawn: real, osc: Oscillator)
    returns (ripple': Option<Vec2>, totalDelta': real)
    ensures Sample(ripple', totalDelta') == Step(Sample(ripple, totalDelta), p, time, RipplePoint(pos, spawn), osc)
  {
    var ripplePos := ToClip(pos);
    var rippleTime := time - spawn;
    var d := Sub(p, ripplePos);
    var w := osc(d, rippleTime);
    var strength := Strength(rippleTime);
    totalDelta' := totalDelta + BrightnessTerm(w, strength);
    var term := DisplacementTerm(d, w, strength);
    ripple' := if ripple.Some? && term.Some? then Some(Add(ripple.value, term.value)) else None;
  }

  /**
   * The fragment shader's loop over the uploaded arrays, for the pixel at
   * texture coordinate `uv`: it computes the same accumulators as Field over
   * the list the arrays encode.
   */
  method Shade(uv: Vec2, time: real, u: Upload, osc: Oscillator) returns (ripple: Option<Vec2>, totalDelta: real)
    requires WellFormed(u)
    ensures Sample(ripple, totalDelta) == Field(uv, time, Unpack(u), osc)
  {
    var p := ToClip(uv);
    ripple := Some(uv);
    totalDelta := 0.0;
    ghost var log := Unpack(u);
    var i := 0;
    while i < u.count
      invariant 0 <= i <= u.count
      invariant Sample(ripple, totalDelta) == Field(uv, time, log[..i], osc)
    {
      var pos := Vec2(u.positions[2 * i], u.positions[2 * i + 1]);
      assert log[i] == RipplePoint(pos, u.times[i]);
      FieldSnoc(uv, time, log, i, osc);
      ripple, totalDelta := Accumulate(ripple, totalDelta, p, time, pos, u.times[i], osc);
      i := i + 1;
    }
    assert log[..i] == log by {
      assert i == |log|;
    }
  }

  /** Decayed ripples add no brightness: the brightness is the same as over the live ripples alone. */
  lemma {:induction false} DecayedAddNoBrightness(uv: Vec2, now: real, log: seq<RipplePoint>, osc: Oscillator)
    ensures Field(uv, now, log, osc).totalDelta == Field(uv, now, Live(now, log), osc).totalDelta
    decreases |log|
  {
    if log != [] {
      var prefix, last := log[..|log| - 1], log[|log| - 1];
      var live := Live(now, prefix);
      DecayedAddNoBrightness(uv, now, prefix, osc);
      var p := ToClip(uv);
      var acc, liveAcc := Field(uv, now, prefix, osc), Field(uv, now, live, osc);
      assert Field(uv, now, log, osc) == Step(acc, p, now, last, osc);
      if Strength(now - last.time) > 0.0 {
        assert Field(uv, now, Live(now, log), osc) == Step(liveAcc, p, now, last, osc) by {
          assert Live(now, log) == live + [last];
          assert (live + [last])[..|live|] == live;
        }
        StepCongruent(acc, liveAcc, p, now, last, osc);
      } else {
        assert Live(now, log) == live;
      }
    }
  }

  /**
   * Decayed ripples displace nothing: unless the pixel sits exactly on some
   * ripple's centre, the displaced coordinate is the same as over the live
   * ripples alone.
   */
  lemma {:induction false} DecayedDisplaceNothing(uv: Vec2, now: real, log: seq<RipplePoint>, osc: Oscillator)
    requires forall r :: r in log ==> r.pos != uv
    ensures Field(uv, now, log, osc).ripple == Field(uv, now, Live(now, log), osc).ripple
    decreases |log|
  {
    if log != [] {
      var prefix, last := log[..|log| - 1], log[|log| - 1];
      assert last in log;
      var live := Live(now, prefix);
      assert forall r :: r in prefix ==> r in log by {
        assert log == prefix + [last];
      }
      DecayedDisplaceNothing(uv, now, prefix, osc);
      var p := ToClip(uv);
      var acc, liveAcc := Field(uv, now, prefix, osc), Field(uv, now, live, osc);
      assert Field(uv, now, log, osc) == Step(acc, p, now, last, osc);
      ClipOffset(uv, last.pos);
      if Strength(now - last.time) > 0.0 {
        assert Field(uv, now, Live(now, log), osc) == Step(liveAcc, p, now, last, osc) by {
          assert Live(now, log) == live + [last];
          assert (live + [last])[..|live|] == live;
        }
        StepCongruent(acc, liveAcc, p, now, last, osc);
      } else {
        assert Live(now, log) == live;
      }
    }
  }

  /** One loop iteration adds the same brightness to any accumulator, and treats equal coordinates alike. */
  lemma StepCongruent(acc1: Sample, acc2: Sample, p: Vec2, now: real, r: RipplePoint, osc: Oscillator)
    ensures Step(acc1, p, now, r, osc).totalDelta - acc1.totalDelta == Step(acc2, p, now, r, osc).totalDelta - acc2.totalDelta
    ensures acc1.ripple == acc2.ripple ==> Step(acc1, p, now, r, osc).ripple == Step(acc2, p, now, r, osc).ripple
  {
  }

  /**
   * The displaced coordinate is undefined exactly when some ripple in the
   * list, decayed or not, is centred on the pixel.
   */
  lemma {:induction false} UndefinedExactlyAtCentres(uv: Vec2, now: real, log: seq<RipplePoint>, osc: Oscillator)
    ensures Field(uv, now, log, osc).ripple.None? <==> exists r :: r in log && r.pos == uv
    decreases |log|
  {
    if log != [] {
      var prefix, last := log[..|log| - 1], log[|log| - 1];
      UndefinedExactlyAtCentres(uv, now, prefix, osc);
      ClipOffset(uv, last.pos);
      var acc := Field(uv, now, prefix, osc);
      assert Field(uv, now, log, osc) == Step(acc, ToClip(uv), now, last, osc);
      StepUndefined(acc, ToClip(uv), now, last, osc);
      CentredInSnoc(prefix, last, uv);
      assert log == prefix + [last];
    }
  }

  /** One loop iteration leaves the displaced coordinate undefined iff it was, or the pixel is on this centre. */
  lemma StepUndefined(acc: Sample, p: Vec2, now: real, r: RipplePoint, osc: Oscillator)
    ensures Step(acc, p, now, r, osc).ripple.None? <==> acc.ripple.None? || Sub(p, ToClip(r.pos)) == Zero
  {
  }

  /** A list extended at the back has a ripple centred on `uv` iff its prefix or the new ripple does. */
  lemma CentredInSnoc(prefix: seq<RipplePoint>, last: RipplePoint, uv: Vec2)
    ensures (exists r :: r in prefix + [last] && r.pos == uv) <==> (exists r :: r in prefix && r.pos == uv) || last.pos == uv
  {
    if exists r :: r in prefix && r.pos == uv {
      var r :| r in prefix && r.pos == uv;
      assert r in prefix + [last];
    }
    if last.pos == uv {
      assert last in prefix + [last];
    }
  }

  /**
   * With a unit wave and no ripple from the future, the brightness stays
   * within 0.05 per live ripple; with at most MAX_RIPPLES ripples it stays
   * within 2.5.
   */
  lemma {:induction false} BrightnessBounded(uv: Vec2, now: real, log: seq<RipplePoint>, osc: Oscillator)
    requires forall d, age :: -1.0 <= osc(d, age).sine <= 1.0
    requires forall i :: 0 <= i < |log| ==> log[i].time <= now
    ensures -BRIGHTNESS * |Live(now, log)| as real <= Field(uv, now, log, osc).totalDelta
    ensures Field(uv, now, log, osc).totalDelta <= BRIGHTNESS * |Live(now, log)| as real
    decreases |log|
  {
    if log != [] {
      var prefix, last := log[..|log| - 1], log[|log| - 1];
      BrightnessBounded(uv, now, prefix, osc);
      var d := Sub(ToClip(uv), ToClip(last.pos));
      var w := osc(d, now - last.time);
      assert -BRIGHTNESS <= BrightnessTerm(w, Strength(now - last.time)) <= BRIGHTNESS;
    }
  }

  /**
   * Ripples superpose additively: the brightness over two lists appended one
   * after the other is the sum of their brightnesses, so the order of the
   * ripples does not matter and coincident ripples simply add up.
   */
  lemma {:induction false} BrightnessSuperposes(uv: Vec2, now: real, a: seq<RipplePoint>, b: seq<RipplePoint>, osc: Oscillator)
    ensures Field(uv, now, a + b, osc).totalDelta == Field(uv, now, a, osc).totalDelta + Field(uv, now, b, osc).totalDelta
    decreases |b|
  {
    if b == [] {
      assert a + b == a;
    } else {
      var prefix := b[..|b| - 1];
      BrightnessSuperposes(uv, now, a, prefix, osc);
      assert (a + b)[..|a + b| - 1] == a + prefix;
      assert (a + b)[|a + b| - 1] == b[|b| - 1];
    }
  }

  /** The shader over the uploaded list is the ripple loop over the list itself. */
  lemma ShadeSeesTheLog(uv: Vec2, now: real, log: seq<RipplePoint>, osc: Oscillator)
    ensures WellFormed(Pack(log))
    ensures Field(uv, now, Unpack(Pack(log)), osc) == Field(uv, now, log, osc)
  {
  }
}
