/** Tank geometry: converts a sensor-to-water distance into level, percentage and volume
    with integer arithmetic only (level_calculator.h). */
module LevelCalculator {

  datatype Model = Model(levelMaxCm: int, sensorOffsetCm: int, volMaxL: int)

  datatype Result = Result(levelCm: int, percentual: int, volumeL: int)

  /** The tank models that the firmwares pass to `compute`. */
  const Ultra1Model: Model := Model(450, 20, 80000)
  const Ultra2Model: Model := Model(450, 20, 245000)

  /** The level before clamping: how far the water is above the empty mark. */
  function RawLevel(distanceCm: int, m: Model): int {
    m.levelMaxCm + m.sensorOffsetCm - distanceCm
  }

  function Clamp(x: int, lo: int, hi: int): (r: int)
    requires lo <= hi
    ensures lo <= r <= hi
    ensures lo <= x <= hi ==> r == x
    ensures x < lo ==> r == lo
    ensures x > hi ==> r == hi
  {
    if x < lo then lo else if x > hi then hi else x
  }

  /** `compute`: the divisions by `levelMaxCm` are unguarded in the source, so a
      positive maximum level is the caller's obligation. Both divisions truncate toward
      zero, as C's do (only a negative volume could make that differ from flooring). The
      volume product is formed in 64 bits there; here integers are unbounded. */
  function Compute(distanceCm: int, m: Model): (r: Result)
    requires m.levelMaxCm > 0
    ensures r.levelCm == Clamp(RawLevel(distanceCm, m), 0, m.levelMaxCm)
    ensures 0 <= r.levelCm <= m.levelMaxCm
    ensures 0 <= r.percentual <= 100
    ensures m.volMaxL >= 0 ==> 0 <= r.volumeL <= m.volMaxL
    ensures r.percentual * m.levelMaxCm <= r.levelCm * 100 < (r.percentual + 1) * m.levelMaxCm
    ensures m.volMaxL >= 0 ==> r.volumeL * m.levelMaxCm <= r.levelCm * m.volMaxL < (r.volumeL + 1) * m.levelMaxCm
  {
    var base := m.levelMaxCm + m.sensorOffsetCm;
    var level0 := base - distanceCm;
    var level1 := if level0 < 0 then 0 else level0;
    var levelCm := if level1 > m.levelMaxCm then m.levelMaxCm else level1;
    var percentual := (levelCm * 100) / m.levelMaxCm;
    QuotientBounds(levelCm, m);
    DivRel(levelCm * 100, m.levelMaxCm);
    var vol := Volume(levelCm, m);
    Result(levelCm, percentual, vol)
  }

  /** The volume step of `compute`: a 64-bit division, truncating toward zero as C's
      does; for a non-negative tank volume it is the floor of the level's share. */
  function Volume(levelCm: int, m: Model): (v: int)
    requires m.levelMaxCm > 0 && 0 <= levelCm <= m.levelMaxCm
    ensures m.volMaxL >= 0 ==> 0 <= v <= m.volMaxL
    ensures m.volMaxL >= 0 ==> v * m.levelMaxCm <= levelCm * m.volMaxL < (v + 1) * m.levelMaxCm
    ensures levelCm == m.levelMaxCm ==> v == m.volMaxL
  {
    var p := levelCm * m.volMaxL;
    VolumeBounds(levelCm, m);
    DivRel(p, m.levelMaxCm);
    if p >= 0 then p / m.levelMaxCm else -((-p) / m.levelMaxCm)
  }

  lemma VolumeBounds(levelCm: int, m: Model)
    requires m.levelMaxCm > 0 && 0 <= levelCm <= m.levelMaxCm
    ensures m.volMaxL >= 0 ==> levelCm * m.volMaxL >= 0
    ensures m.volMaxL >= 0 ==> 0 <= (levelCm * m.volMaxL) / m.levelMaxCm <= m.volMaxL
    ensures levelCm == m.levelMaxCm ==> (levelCm * m.volMaxL) / m.levelMaxCm == m.volMaxL
    ensures levelCm == m.levelMaxCm ==> (-(levelCm * m.volMaxL)) / m.levelMaxCm == -m.volMaxL
  {
    if levelCm == m.levelMaxCm {
      DivExact(m.volMaxL, m.levelMaxCm);
      DivExact(-m.volMaxL, m.levelMaxCm);
      assert -(levelCm * m.volMaxL) == m.levelMaxCm * -m.volMaxL;
    }
    if m.volMaxL >= 0 {
      FloorDivBounds(levelCm, m.volMaxL, m.levelMaxCm);
    }
  }

  /** A multiple of the divisor divides exactly. */
  lemma DivExact(k: int, d: int)
    requires d > 0
    ensures (d * k) / d == k
  {
    var q := (d * k) / d;
    DivRel(d * k, d);
    assert (q - k) * d <= 0 < (q - k + 1) * d;
    if q > k {
      MulLeMono(1, q - k, d);
    }
    if q < k {
      MulLeMono(q - k + 1, 0, d);
    }
  }

  /** Floor division brackets its dividend. */
  lemma DivRel(a: int, d: int)
    requires d > 0
    ensures (a / d) * d <= a < (a / d + 1) * d
  {
  }

  lemma QuotientBounds(levelCm: int, m: Model)
    requires m.levelMaxCm > 0 && 0 <= levelCm <= m.levelMaxCm
    ensures 0 <= (levelCm * 100) / m.levelMaxCm <= 100
  {
    FloorDivBounds(levelCm, 100, m.levelMaxCm);
  }

  /** For 0 <= a <= d and k >= 0, the quotient (a * k) / d lies in [0, k]. */
  lemma FloorDivBounds(a: int, k: int, d: int)
    requires 0 <= a <= d && d > 0 && k >= 0
    ensures 0 <= (a * k) / d <= k
  {
    assert a * k <= d * k by {
      MulLeMono(a, d, k);
    }
    assert (d * k) / d == k;
    DivMono(a * k, d * k, d);
  }

  lemma MulLeMono(a: int, b: int, k: int)
    requires a <= b && k >= 0
    ensures a * k <= b * k
  {
    assert b * k - a * k == (b - a) * k;
  }

  lemma DivMono(x: int, y: int, d: int)
    requires x <= y && d > 0
    ensures x / d <= y / d
  {
    var qx, qy := x / d, y / d;
    assert x == qx * d + x % d;
    assert y == qy * d + y % d;
    if qx > qy {
      assert qx >= qy + 1;
      MulLeMono(qy + 1, qx, d);
      assert false;
    }
  }

  // ---------------------------------------------------------------------
  // Properties

  /** Level, percentage and volume never increase as the measured distance grows. */
  lemma {:induction false} ComputeMonotone(d1: int, d2: int, m: Model)
    requires m.levelMaxCm > 0
    requires d1 <= d2
    ensures Compute(d2, m).levelCm <= Compute(d1, m).levelCm
    ensures Compute(d2, m).percentual <= Compute(d1, m).percentual
    ensures m.volMaxL >= 0 ==> Compute(d2, m).volumeL <= Compute(d1, m).volumeL
  {
    var l1, l2 := Compute(d1, m).levelCm, Compute(d2, m).levelCm;
    assert l2 <= l1;
    MulLeMono(l2, l1, 100);
    DivMono(l2 * 100, l1 * 100, m.levelMaxCm);
    if m.volMaxL >= 0 {
      MulLeMono(l2, l1, m.volMaxL);
      DivMono(l2 * m.volMaxL, l1 * m.volMaxL, m.levelMaxCm);
    }
  }

  /** A distance at or below the sensor offset reads as a full tank. */
  lemma ComputeFull(distanceCm: int, m: Model)
    requires m.levelMaxCm > 0
    requires distanceCm <= m.sensorOffsetCm
    ensures Compute(distanceCm, m) == Result(m.levelMaxCm, 100, m.volMaxL)
  {
  }

  /** A distance at or beyond the bottom of the tank reads as empty. */
  lemma ComputeEmpty(distanceCm: int, m: Model)
    requires m.levelMaxCm > 0
    requires distanceCm >= m.levelMaxCm + m.sensorOffsetCm
    ensures Compute(distanceCm, m) == Result(0, 0, 0)
  {
  }

  /** The reference values for the 450 cm / 20 cm / 80000 L tank. */
  lemma ReferenceTank(distanceCm: int)
    ensures distanceCm <= 20 ==> Compute(distanceCm, Ultra1Model) == Result(450, 100, 80000)
    ensures distanceCm >= 470 ==> Compute(distanceCm, Ultra1Model) == Result(0, 0, 0)
  {
    if distanceCm <= 20 {
      ComputeFull(distanceCm, Ultra1Model);
    }
    if distanceCm >= 470 {
      ComputeEmpty(distanceCm, Ultra1Model);
    }
  }

  /** `compute` works on 32-bit `int`: for every distance the firmwares pass (they clamp
      it to [5, 450] or pass -1 first) and both tank models, no intermediate leaves the
      signed 32-bit range, so the unbounded model agrees with the C++ arithmetic. */
  lemma FirmwareArithmeticFits(distanceCm: int, m: Model)
    requires m == Ultra1Model || m == Ultra2Model
    requires -1 <= distanceCm <= 450
    ensures -0x8000_0000 <= RawLevel(distanceCm, m) < 0x8000_0000
    ensures Compute(distanceCm, m).levelCm * 100 < 0x8000_0000
    ensures Compute(distanceCm, m).levelCm * m.volMaxL < 0x8000_0000_0000_0000
    ensures 0 <= Compute(distanceCm, m).volumeL <= 245000
  {
  }
}
