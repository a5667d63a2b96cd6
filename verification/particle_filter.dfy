/**
 * The particle filter of lab8/particle_filter.py: moving every particle by
 * the odometry reading (`motion_update`), and weighting, resampling and
 * topping up the particles against the markers the robot sees
 * (`measurement_update`, `prob_estimate`).
 *
 * The trigonometry, `math.e ** x`, the heading helpers of the course's
 * utilities module, the map and the random draws are all parameters: the
 * model states what it needs of them and nothing more.
 */
module ParticleFilter {
  import opened Outcomes
  import opened Resampling

  /** A hypothesised robot pose: a position and a heading in degrees. */
  datatype Particle = Particle(x: real, y: real, h: real)

  /**
   * An `(x, y, heading-in-degrees)` triple: an odometry step or an observed
   * marker, both in the robot's own frame, or a marker of the map.
   */
  datatype Pose = Pose(x: real, y: real, h: real)

  /**
   * The numeric environment: pi, cosine and sine of radians, `math.e ** x`,
   * the course's `add_heading_deg` and `diff_heading_deg`, and the marker
   * noise constants `MARKER_TRANS_SIGMA` and `MARKER_ROT_SIGMA` (degrees).
   */
  datatype Env = Env(
    pi: real,
    cos: real -> real,
    sin: real -> real,
    exp: real -> real,
    addHeadingDeg: (real, real) -> real,
    diffHeadingDeg: (real, real) -> real,
    transSigma: real,
    rotSigma: real)

  /** What the model relies on: the textbook facts about these functions, and non-zero noise constants. */
  ghost predicate EnvFacts(env: Env)
  {
    && env.pi > 0.0
    && env.transSigma != 0.0
    && env.rotSigma != 0.0
    && env.cos(0.0) == 1.0
    && env.sin(0.0) == 0.0
    && (forall t :: Mul(env.cos(t), env.cos(t)) + Mul(env.sin(t), env.sin(t)) == 1.0)
    && env.exp(0.0) == 1.0
    && (forall x :: x < 0.0 ==> 0.0 < env.exp(x) < 1.0)
  }

  /** The map: which positions are free space, the markers, and `parse_marker_info`. */
  datatype World = World(isFree: (real, real) -> bool, markers: seq<Pose>, parse: Pose -> Pose)

  /**
   * Real multiplication behind a function symbol, so that facts proved about
   * a product carry over to every place the same product appears.
   */
  function Mul(a: real, b: real): real
  {
    a * b
  }

  lemma ProductPositive(a: real, b: real)
    requires a > 0.0 && b > 0.0
    ensures Mul(a, b) > 0.0
  {
  }

  lemma SquarePositive(a: real)
    requires a != 0.0
    ensures Mul(a, a) > 0.0
  {
    if a > 0.0 {
      ProductPositive(a, a);
    } else {
      ProductPositive(-a, -a);
      assert Mul(-a, -a) == Mul(a, a);
    }
  }

  lemma SquareNonNegative(a: real)
    ensures Mul(a, a) >= 0.0
  {
    if a != 0.0 {
      SquarePositive(a);
    }
  }

  lemma ProductNonNegative(a: real, b: real)
    requires a >= 0.0 && b >= 0.0
    ensures Mul(a, b) >= 0.0
  {
    if a > 0.0 && b > 0.0 {
      ProductPositive(a, b);
    }
  }

  /** A rotation by an angle whose cosine and sine are `c` and `s` keeps lengths. */
  lemma RotationKeepsLength(c: real, s: real, a: real, b: real)
    requires Mul(c, c) + Mul(s, s) == 1.0
    ensures var x := Mul(c, a) - Mul(s, b);
            var y := Mul(s, a) + Mul(c, b);
            Mul(x, x) + Mul(y, y) == Mul(a, a) + Mul(b, b)
  {
    var x := Mul(c, a) - Mul(s, b);
    var y := Mul(s, a) + Mul(c, b);
    calc {
      Mul(x, x) + Mul(y, y);
      (c * a - s * b) * (c * a - s * b) + (s * a + c * b) * (s * a + c * b);
      (c * c + s * s) * (a * a) + (c * c + s * s) * (b * b);
      a * a + b * b;
    }
  }

  /** `math.radians`: zero exactly for zero degrees. */
  function Radians(env: Env, deg: real): (r: real)
    requires env.pi > 0.0
    ensures deg == 0.0 ==> r == 0.0
    ensures deg != 0.0 ==> r != 0.0
  {
    deg * env.pi / 180.0
  }

  /**
   * `add_relative_to_origin_frame`: the relative point rotated by the
   * particle's heading and moved to its position, with the relative heading
   * added by `add_heading_deg`. The move is rigid: the distance travelled is
   * the length of the relative offset, a zero offset stays put, and at
   * heading 0 the offset is added unchanged.
   */
  function AddRelative(env: Env, p: Particle, rel: Pose): (q: Particle)
    requires EnvFacts(env)
    ensures q.h == env.addHeadingDeg(p.h, rel.h)
    ensures Mul(q.x - p.x, q.x - p.x) + Mul(q.y - p.y, q.y - p.y) == Mul(rel.x, rel.x) + Mul(rel.y, rel.y)
    ensures rel.x == 0.0 && rel.y == 0.0 ==> q.x == p.x && q.y == p.y
    ensures p.h == 0.0 ==> q.x == p.x + rel.x && q.y == p.y + rel.y
  {
    var theta := Radians(env, p.h);
    var c := env.cos(theta);
    var s := env.sin(theta);
    RotationKeepsLength(c, s, rel.x, rel.y);
    Particle(Mul(c, rel.x) - Mul(s, rel.y) + p.x, Mul(s, rel.x) + Mul(c, rel.y) + p.y,
             env.addHeadingDeg(p.h, rel.h))
  }

  /**
   * One particle of `motion_update`: moved by the odometry, then each
   * coordinate perturbed by its Gaussian sample (`add_gaussian_noise`).
   */
  function MotionStep(env: Env, p: Particle, odom: Pose, noise: Pose): (q: Particle)
    requires EnvFacts(env)
    ensures noise == Pose(0.0, 0.0, 0.0) ==> q == AddRelative(env, p, odom)
    ensures var dx := q.x - noise.x - p.x;
            var dy := q.y - noise.y - p.y;
            Mul(dx, dx) + Mul(dy, dy) == Mul(odom.x, odom.x) + Mul(odom.y, odom.y)
    ensures q.h - noise.h == env.addHeadingDeg(p.h, odom.h)
  {
    var m := AddRelative(env, p, odom);
    Particle(m.x + noise.x, m.y + noise.y, m.h + noise.h)
  }

  /**
   * `motion_update`: one moved particle per input particle, in the same
   * order, each from its own noise sample. Without noise a particle travels
   * exactly the length of the odometry step.
   */
  function MotionUpdate(env: Env, particles: seq<Particle>, odom: Pose, noise: seq<Pose>): (r: seq<Particle>)
    requires EnvFacts(env)
    requires |noise| == |particles|
    ensures |r| == |particles|
    ensures forall i :: 0 <= i < |r| ==> r[i] == MotionStep(env, particles[i], odom, noise[i])
    ensures forall i :: 0 <= i < |r| && noise[i] == Pose(0.0, 0.0, 0.0) ==>
      Mul(r[i].x - particles[i].x, r[i].x - particles[i].x) + Mul(r[i].y - particles[i].y, r[i].y - particles[i].y)
        == Mul(odom.x, odom.x) + Mul(odom.y, odom.y)
    decreases |particles|
  {
    if particles == [] then []
    else
      var n := |particles| - 1;
      MotionUpdate(env, particles[..n], odom, noise[..n]) + [MotionStep(env, particles[n], odom, noise[n])]
  }

  /** The precision of the x and y marker error: the inverse of `MARKER_TRANS_SIGMA` squared. */
  function TransPrecision(env: Env): (w: real)
    requires EnvFacts(env)
    ensures w > 0.0
  {
    SquarePositive(env.transSigma);
    1.0 / Mul(env.transSigma, env.transSigma)
  }

  /** The precision of the heading error: the inverse of `MARKER_ROT_SIGMA`, in radians, squared. */
  function RotPrecision(env: Env): (w: real)
    requires EnvFacts(env)
    ensures w > 0.0
  {
    var rho := Radians(env, env.rotSigma);
    SquarePositive(rho);
    1.0 / Mul(rho, rho)
  }

  /** One squared error weighted by its precision: positive exactly when the error is non-zero. */
  function WeightedSquare(v: real, w: real): (t: real)
    requires w > 0.0
    ensures t >= 0.0
    ensures t > 0.0 <==> v != 0.0
  {
    SquareNonNegative(v);
    ProductNonNegative(Mul(v, v), w);
    if v != 0.0 then
      SquarePositive(v);
      ProductPositive(Mul(v, v), w);
      Mul(Mul(v, v), w)
    else
      Mul(Mul(v, v), w)
  }

  /**
   * `mu^T * sigma_inv * mu` for the diagonal covariance of lines 10-12: never
   * negative, and zero exactly when all three errors are.
   */
  function Mahalanobis(env: Env, dx: real, dy: real, dh: real): (q: real)
    requires EnvFacts(env)
    ensures q >= 0.0
    ensures q == 0.0 <==> dx == 0.0 && dy == 0.0 && dh == 0.0
  {
    WeightedSquare(dx, TransPrecision(env)) + WeightedSquare(dy, TransPrecision(env))
      + WeightedSquare(dh, RotPrecision(env))
  }

  /**
   * `prob_estimate`: the unnormalised Gaussian likelihood of a point against
   * a parsed map marker. It lies in (0, 1] and is 1 exactly when position and
   * heading agree.
   */
  function ProbEstimate(env: Env, point: Particle, m: Pose): (r: real)
    requires EnvFacts(env)
    ensures 0.0 < r <= 1.0
    ensures r == 1.0 <==> point.x == m.x && point.y == m.y && env.diffHeadingDeg(point.h, m.h) == 0.0
  {
    var q := Mahalanobis(env, point.x - m.x, point.y - m.y, Radians(env, env.diffHeadingDeg(point.h, m.h)));
    env.exp(-(q / 2.0))
  }

  /** Python's `max`: the largest entry, which is one of the entries. */
  function MaxOf(s: seq<real>): (m: real)
    requires s != []
    ensures exists i :: 0 <= i < |s| && s[i] == m
    ensures forall i :: 0 <= i < |s| ==> s[i] <= m
    decreases |s|
  {
    if |s| == 1 then s[0]
    else
      var m := MaxOf(s[..|s| - 1]);
      if s[|s| - 1] > m then s[|s| - 1] else m
  }

  /**
   * Lines 103-107 for one observation: the particle's view of the observed
   * marker scored against every map marker, keeping the best score.
   */
  function BestMatch(env: Env, world: World, p: Particle, obs: Pose): (b: real)
    requires EnvFacts(env) && world.markers != []
    ensures 0.0 < b <= 1.0
    ensures exists j :: (0 <= j < |world.markers| &&
      b == ProbEstimate(env, AddRelative(env, p, obs), world.parse(world.markers[j])))
    ensures forall j :: 0 <= j < |world.markers| ==>
      ProbEstimate(env, AddRelative(env, p, obs), world.parse(world.markers[j])) <= b
  {
    var point := AddRelative(env, p, obs);
    var scores := seq(|world.markers|, j requires 0 <= j < |world.markers| =>
      ProbEstimate(env, point, world.parse(world.markers[j])));
    assert forall j :: 0 <= j < |scores| ==> scores[j] == ProbEstimate(env, point, world.parse(world.markers[j]));
    MaxOf(scores)
  }

  /**
   * Lines 99-107: the best match of each observation, added up in order.
   * Each term lies in (0, 1], so the total is positive for a non-empty list
   * and at most its length.
   */
  function ObservationScore(env: Env, world: World, p: Particle, measured: seq<Pose>): (w: real)
    requires EnvFacts(env) && world.markers != []
    ensures 0.0 <= w <= |measured| as real
    ensures w > 0.0 <==> measured != []
    decreases |measured|
  {
    if measured == [] then 0.0
    else
      var n := |measured| - 1;
      ObservationScore(env, world, p, measured[..n]) + BestMatch(env, world, p, measured[n])
  }

  /** Whether some particle stands on free space. */
  predicate AnyFree(world: World, particles: seq<Particle>)
  {
    exists i :: 0 <= i < |particles| && world.isFree(particles[i].x, particles[i].y)
  }

  /**
   * Lines 96-108: a particle off the map or on an obstacle weighs 0; any other
   * gets its observation score, which is positive once something was seen.
   * A particle on free space needs at least one map marker (`max` of an
   * empty list raises).
   */
  function Weight(env: Env, world: World, p: Particle, measured: seq<Pose>): (w: real)
    requires EnvFacts(env)
    requires world.isFree(p.x, p.y) ==> world.markers != []
    ensures w >= 0.0
    ensures w > 0.0 <==> world.isFree(p.x, p.y) && measured != []
  {
    if !world.isFree(p.x, p.y) then 0.0 else ObservationScore(env, world, p, measured)
  }

  /** The weights of all particles, in order (`all_w`). */
  function Weights(env: Env, world: World, particles: seq<Particle>, measured: seq<Pose>): (ws: seq<real>)
    requires EnvFacts(env)
    requires world.markers != [] || !AnyFree(world, particles)
    ensures |ws| == |particles| && NonNegative(ws)
    ensures forall i :: 0 <= i < |ws| ==> ws[i] == Weight(env, world, particles[i], measured)
  {
    seq(|particles|, i requires 0 <= i < |particles| => Weight(env, world, particles[i], measured))
  }

  /** `int(n * .95)`: the number of particles drawn by weight, the floor of 95% of `n`. */
  function SubsetSize(n: nat): (k: nat)
    ensures k <= n
    ensures 100 * k <= 95 * n < 100 * (k + 1)
  {
    (95 * n) / 100
  }

  /** How `measurement_update` can fail. */
  datatype FilterError =
    | EmptyMarkerList   // `max` of the scores against a map with no markers
    | ZeroTotalWeight   // every weight is zero, so normalising divides by zero

  /**
   * Lines 128-136: each draw selects the first particle whose cumulative
   * share reaches it (`bisect_left`), and the spawned random particles follow.
   */
  function Resample(particles: seq<Particle>, dist: seq<real>, draws: seq<real>, spawned: seq<Particle>): (r: seq<Particle>)
    requires Sorted(dist) && |dist| == |particles|
    requires forall j :: 0 <= j < |draws| ==> |dist| > 0 && draws[j] <= dist[|dist| - 1]
    ensures |r| == |draws| + |spawned|
    ensures forall j :: 0 <= j < |draws| ==>
      BisectLeft(dist, draws[j]) < |particles| && r[j] == particles[BisectLeft(dist, draws[j])]
    ensures r[|draws|..] == spawned
  {
    seq(|draws|, j requires 0 <= j < |draws| => particles[BisectLeft(dist, draws[j])]) + spawned
  }

  /**
   * `measurement_update`. `draws` stands for the `random.uniform(0, 1)` values
   * and `spawned` for the particles `Particle.create_random` returns.
   *
   * Nothing observed leaves the particles as they are. Otherwise the update
   * fails when a particle on free space meets a map without markers, or when
   * no particle is on free space at all. On success there are as many
   * particles as before: first the drawn ones, each a copy of an input
   * particle, then the spawned ones.
   */
  function MeasurementUpdate(env: Env, world: World, particles: seq<Particle>, measured: seq<Pose>,
                             draws: seq<real>, spawned: seq<Particle>): (r: Result<seq<Particle>, FilterError>)
    requires EnvFacts(env)
    requires |draws| == SubsetSize(|particles|)
    requires forall j :: 0 <= j < |draws| ==> 0.0 <= draws[j] <= 1.0
    requires |spawned| == |particles| - SubsetSize(|particles|)
    ensures measured == [] ==> r == Success(particles)
    ensures r == Failure(EmptyMarkerList) <==>
      measured != [] && world.markers == [] && AnyFree(world, particles)
    ensures r == Failure(ZeroTotalWeight) <==>
      measured != [] && |particles| > 0 && !AnyFree(world, particles)
    ensures r.Success? ==> |r.value| == |particles|
    ensures r.Success? && measured != [] ==>
      r.value[|draws|..] == spawned && forall j :: 0 <= j < |draws| ==> r.value[j] in particles
  {
    if measured == [] then Success(particles)
    else if world.markers == [] && AnyFree(world, particles) then Failure(EmptyMarkerList)
    else
      var ws := Weights(env, world, particles, measured);
      TotalWeight(env, world, particles, measured);
      if |particles| > 0 && Sum(ws) == 0.0 then Failure(ZeroTotalWeight)
      else
        var dist := Distribution(ws);
        DistributionSorted(ws);
        Success(Resample(particles, dist, draws, spawned))
  }

  /** The weights sum to zero exactly when no particle stands on free space. */
  lemma TotalWeight(env: Env, world: World, particles: seq<Particle>, measured: seq<Pose>)
    requires EnvFacts(env) && measured != []
    requires world.markers != [] || !AnyFree(world, particles)
    ensures Sum(Weights(env, world, particles, measured)) >= 0.0
    ensures Sum(Weights(env, world, particles, measured)) == 0.0 <==> !AnyFree(world, particles)
  {
    var ws := Weights(env, world, particles, measured);
    SumNonNegative(ws);
    if !AnyFree(world, particles) {
      NoFreeParticleWeighs(env, world, particles, measured);
    } else {
      FreeParticleWeighs(env, world, particles, measured);
    }
  }

  /** With no particle on free space every weight is 0 (the zero-sum direction of `TotalWeight`). */
  lemma NoFreeParticleWeighs(env: Env, world: World, particles: seq<Particle>, measured: seq<Pose>)
    requires EnvFacts(env) && !AnyFree(world, particles)
    ensures forall i :: 0 <= i < |particles| ==> Weights(env, world, particles, measured)[i] == 0.0
  {
  }

  /** A particle on free space weighs something when markers were observed (the positive direction of `TotalWeight`). */
  lemma FreeParticleWeighs(env: Env, world: World, particles: seq<Particle>, measured: seq<Pose>)
    requires EnvFacts(env) && measured != [] && world.markers != [] && AnyFree(world, particles)
    ensures exists i :: 0 <= i < |particles| && Weights(env, world, particles, measured)[i] > 0.0
  {
    var i :| 0 <= i < |particles| && world.isFree(particles[i].x, particles[i].y);
    var ws := Weights(env, world, particles, measured);
    assert ws[i] == Weight(env, world, particles[i], measured);
    assert ws[i] > 0.0;
  }

  /**
   * A particle drawn by weight stands on free space: off-map and obstacle
   * particles weigh nothing and so are never drawn. A draw of exactly 0 is
   * the one exception, since `bisect_left` then picks the first particle
   * whatever its weight.
   */
  lemma DrawnParticlesAreFree(env: Env, world: World, particles: seq<Particle>, measured: seq<Pose>,
                              draws: seq<real>, spawned: seq<Particle>, j: nat)
    requires EnvFacts(env)
    requires |draws| == SubsetSize(|particles|)
    requires forall j :: 0 <= j < |draws| ==> 0.0 <= draws[j] <= 1.0
    requires |spawned| == |particles| - SubsetSize(|particles|)
    requires measured != [] && j < |draws| && draws[j] > 0.0
    requires world.markers != [] && AnyFree(world, particles)
    ensures var r := MeasurementUpdate(env, world, particles, measured, draws, spawned);
            r.Success? && world.isFree(r.value[j].x, r.value[j].y)
  {
    var ws := Weights(env, world, particles, measured);
    TotalWeight(env, world, particles, measured);
    var dist := Distribution(ws);
    DistributionSorted(ws);
    var k := BisectLeft(dist, draws[j]);
    assert k < |particles|;
    if !world.isFree(particles[k].x, particles[k].y) {
      ZeroWeightNeverSelected(ws, draws[j], k);
    }
  }

  /**
   * Lines 111-131, "pick 95% of the particles based on weight": draw j of a
   * successful update is the particle k whose slice of the cumulative weight
   * share, `(Sum(ws[..k]) / total, Sum(ws[..k + 1]) / total]`, holds
   * `draws[j]` (the first particle also takes a draw of 0). A draw exists
   * only for a non-empty particle list, and for one the update succeeds
   * exactly when the map has markers and some particle is on free space.
   */
  lemma DrawnByWeight(env: Env, world: World, particles: seq<Particle>, measured: seq<Pose>,
                      draws: seq<real>, spawned: seq<Particle>, j: nat)
    requires EnvFacts(env)
    requires |draws| == SubsetSize(|particles|)
    requires forall j :: 0 <= j < |draws| ==> 0.0 <= draws[j] <= 1.0
    requires |spawned| == |particles| - SubsetSize(|particles|)
    requires measured != [] && j < |draws|
    requires world.markers != [] && AnyFree(world, particles)
    ensures var ws := Weights(env, world, particles, measured);
            var r := MeasurementUpdate(env, world, particles, measured, draws, spawned);
            && r.Success? && Sum(ws) > 0.0
            && exists k :: 0 <= k < |particles| && r.value[j] == particles[k]
                 && (k == 0 || Sum(ws[..k]) / Sum(ws) < draws[j])
                 && draws[j] <= Sum(ws[..k + 1]) / Sum(ws)
  {
    var ws := Weights(env, world, particles, measured);
    TotalWeight(env, world, particles, measured);
    SelectedByShare(ws, draws[j]);
    var k := BisectLeft(Distribution(ws), draws[j]);
    assert MeasurementUpdate(env, world, particles, measured, draws, spawned).value[j] == particles[k];
  }
}
