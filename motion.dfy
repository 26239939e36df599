/** The integer jump curve of `src/games/utils.rs`: a parabola of height `max` that starts and
    ends at 0 over `duration` ticks, sampled once per tick. All fields are `usize`. */
module Motion {

  import Bits

  datatype Parabola = Parabola(max: nat, duration: nat, time: nat, value: nat) {

    /** `Parabola::new`: at time 0 with value 0. */
    static function New(max: nat, duration: nat): (p: Parabola)
      ensures p.max == max && p.duration == duration
      ensures p.time == 0 && p.value == 0
      ensures p.Valid() && (p.Finished() <==> duration == 0)
    {
      Parabola(max, duration, 0, 0)
    }

    /** The derived field `value` holds the curve at the current time. */
    predicate Valid() {
      value == CalcValue()
    }

    /** `Parabola::step`: one tick later, with the value recomputed for the new time. */
    function Step(): (p: Parabola)
      ensures p.time == time + 1 && p.max == max && p.duration == duration
      ensures p.Valid() && p.value <= max
      ensures p.Finished() ==> p.value == 0
    {
      var next := this.(time := time + 1);
      next.(value := next.CalcValue())
    }

    /** `Parabola::value`: the stored height, which for a consistent curve is at most `max` and
        0 once finished. */
    function Value(): (v: nat)
      ensures Valid() ==> v <= max
      ensures Valid() && Finished() ==> v == 0
    {
      value
    }

    /** `Parabola::finished`. An unfinished curve has a non-zero duration, so the division in
        `calc_value` is safe exactly where it is reached. */
    predicate Finished(): (b: bool)
      ensures !b ==> duration > 0
    {
      time >= duration
    }

    /** `Parabola::calc_value`: `(4*max*duration*time - 4*max*time*time) / duration^2`, and 0 once
        finished. The early return is what keeps the division away from `duration == 0`, and for
        `time < duration` the subtraction cannot go below zero. */
    function CalcValue(): (v: nat)
      ensures Finished() ==> v == 0
      ensures !Finished() ==> v <= max
    {
      var a := 4 * max;
      var b := 4 * max * duration;
      if time >= duration then 0
      else
        CurveFacts(max, duration, time);
        (b * time - a * time * time) / (duration * duration)
    }
  }

  /** Before the curve is finished, `calc_value` is the floor of the exact height
      4 * max * t * (d - t) / d^2 of the parabola through (0, 0), (d / 2, max) and (d, 0). */
  lemma CalcValueIsFloor(p: Parabola)
    requires !p.Finished()
    ensures var d, v := p.duration, p.CalcValue();
      v * (d * d) <= 4 * p.max * p.time * (d - p.time) < (v + 1) * (d * d)
  {
    CurveFacts(p.max, p.duration, p.time);
  }

  /** What the formula of `calc_value` computes before the curve is finished. */
  lemma CurveFacts(max: nat, d: nat, t: nat)
    requires t < d
    ensures (4 * max * d) * t - (4 * max) * t * t >= 0
    ensures ((4 * max * d) * t - (4 * max) * t * t) / (d * d) <= max
    ensures var v := ((4 * max * d) * t - (4 * max) * t * t) / (d * d);
      v * (d * d) <= 4 * max * t * (d - t) < (v + 1) * (d * d)
  {
    NumeratorIsArc(max, d, t);
    ArcAtMostSquare(max, d, t);
    DivBounds(4 * max * t * (d - t), d * d, max);
  }

  /** The numerator of `calc_value` is 4 * max * t * (d - t), so it is never negative for t <= d. */
  lemma NumeratorIsArc(max: nat, d: nat, t: nat)
    requires t <= d
    ensures (4 * max * d) * t - (4 * max) * t * t == 4 * max * t * (d - t) >= 0
  {
    assert (4 * max * d) * t - (4 * max) * t * t == (4 * max * t) * (d - t);
  }

  /** 4 t (d - t) <= d^2, because d^2 - 4 t (d - t) == (d - 2 t)^2. */
  lemma ArcAtMostSquare(max: nat, d: nat, t: nat)
    requires t <= d
    ensures 4 * max * t * (d - t) <= max * (d * d)
  {
    var e := d - 2 * t;
    assert d * d - 4 * t * (d - t) == e * e;
    assert 4 * t * (d - t) <= d * d;
    assert 4 * max * t * (d - t) == max * (4 * t * (d - t));
    MulMonotone(max, 4 * t * (d - t), d * d);
  }

  lemma MulMonotone(m: nat, a: nat, b: nat)
    requires a <= b
    ensures m * a <= m * b
  {
  }

  /** Floor division: n / d <= m when n <= m * d, and (n / d) * d <= n < (n / d + 1) * d. */
  lemma DivBounds(n: nat, d: nat, m: nat)
    requires d > 0 && n <= m * d
    ensures n / d <= m
    ensures (n / d) * d <= n < (n / d + 1) * d
  {
    var q := n / d;
    assert n == q * d + n % d;
    if q > m {
      assert q * d >= (m + 1) * d by {
        MulMonotone(d, m + 1, q);
      }
    }
  }

  /** The curve is symmetric: the height at t equals the height at duration - t. */
  lemma Symmetric(p: Parabola, t: nat)
    requires 0 < t < p.duration
    ensures p.(time := t).CalcValue() == p.(time := p.duration - t).CalcValue()
  {
    var d := p.duration;
    NumeratorIsArc(p.max, d, t);
    NumeratorIsArc(p.max, d, d - t);
    assert 4 * p.max * t * (d - t) == 4 * p.max * (d - t) * (d - (d - t));
  }

  /** For an even duration the height at half time is exactly `max`. */
  lemma PeakAtHalfTime(p: Parabola)
    requires p.duration > 0 && p.duration % 2 == 0
    ensures p.(time := p.duration / 2).CalcValue() == p.max
  {
    var h := p.duration / 2;
    var d := p.duration;
    NumeratorIsArc(p.max, d, h);
    assert 4 * p.max * h * (d - h) == p.max * (d * d);
    MulDiv(p.max, d * d);
  }

  lemma MulDiv(m: nat, d: nat)
    requires d > 0
    ensures (m * d) / d == m
  {
    Bits.DivModOfDecomposition(m * d, d, m, 0);
  }

  /** `step` applied n times. */
  function Steps(p: Parabola, n: nat): Parabola
  {
    if n == 0 then p else Steps(p, n - 1).Step()
  }

  /** After n steps from `new(max, duration)` the curve is at time n and holds the height for
      time n; it is finished exactly when n >= duration, and from then on its value is 0. */
  lemma {:induction false} Trajectory(max: nat, duration: nat, n: nat)
    ensures var p := Steps(Parabola.New(max, duration), n);
      && p.max == max && p.duration == duration && p.time == n && p.Valid()
      && (p.Finished() <==> n >= duration)
      && (n >= duration ==> p.Value() == 0)
  {
    if n > 0 {
      Trajectory(max, duration, n - 1);
    }
  }
}
