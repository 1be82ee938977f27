// The path tracing integrator: the per-sample radiance loop Li, a bounded
// state machine over (L, beta, lastPdf, lastSpecular, hasLastBsdf, ray)
// with next event estimation towards the environment map and MIS weights,
// and render, which averages the samples of every pixel into the film.
// The scene, the materials the hit records point at, the environment map,
// the camera and the random numbers are parameters of the model.
module Integrators {
  import opened Types
  import opened Rays
  import opened Interaction
  import opened Materials
  import opened SpectrumUtils
  import opened RtMath
  import Images
  import EnvMaps
  import Films
  import DiffuseLight

  /** The virtual calls made through a hit record's material pointer. */
  datatype MaterialOps = MaterialOps(
    emitted: (SurfaceInteraction, Vec3) -> Spectrum,
    isSpecular: SurfaceInteraction -> bool,
    eval: (SurfaceInteraction, Vec3, Vec3) -> Spectrum,
    pdf: (SurfaceInteraction, Vec3, Vec3) -> real,
    sample: (SurfaceInteraction, Vec3, Point2) -> Option<BSDFSample>)

  /** The scene: closest-hit queries and the materials of the records it returns. */
  datatype Scene = Scene(hit: Ray -> Option<SurfaceInteraction>, mat: MaterialOps)

  /** The environment map's eval, pdf and sample. */
  datatype EnvLight = EnvLight(eval: Vec3 -> Spectrum, pdf: Vec3 -> real, sample: Point2 -> EnvMaps.EnvSample)

  /** The random pairs one path draws: for the light sample and the BSDF sample at each depth. */
  datatype PathRandom = PathRandom(light: int -> Point2, bsdf: int -> Point2)

  /** The loop state of Li. */
  datatype PathState = PathState(
    L: Spectrum, beta: Spectrum, lastPdf: real, lastSpecular: bool, hasLastBsdf: bool, r: Ray)

  /** The outcome of one bounce: the loop breaks with L, or goes on with a new state. */
  datatype Step = Stop(L: Spectrum) | Next(st: PathState)

  /**
   * The two readings of a black BSDF value during next event estimation:
   * as written, the loop continues with the same ray; as corrected, only
   * the light sample's contribution is dropped and the bounce goes on.
   */
  datatype Variant = AsWritten | Corrected

  /** L = 0, beta = 1, no previous BSDF sample. */
  function Start(r: Ray): (st: PathState)
    ensures st.L == Black && st.beta == Splat(1.0) && !st.hasLastBsdf
  {
    PathState(Black, Splat(1.0), 0.0, false, false, r)
  }

  /** The non-specular density floor 1e-8f, exactly as the float literal widens to double. */
  const PdfFloor: real := 0.00000000999999993922529029077850282192230224609375

  /** The power heuristic a^2 / (a^2 + b^2) when both densities are positive, 1 otherwise. */
  function MisWeight(a: real, b: real): (w: real)
    ensures 0.0 <= w <= 1.0
    ensures !(a > 0.0 && b > 0.0) ==> w == 1.0
    ensures a > 0.0 && b > 0.0 ==> 0.0 < w < 1.0
  {
    if a > 0.0 && b > 0.0 then
      SquarePositive(a);
      SquarePositive(b);
      Ratio(Square(a), Square(a) + Square(b))
    else 1.0
  }

  /** x * x, through a product of two arguments so that the solver keeps it as one term. */
  function Square(x: real): real
  {
    Times(x, x)
  }

  function Times(a: real, b: real): real
  {
    a * b
  }

  lemma TimesPositive(a: real, b: real)
    requires a > 0.0 && b > 0.0
    ensures Times(a, b) > 0.0
  {
  }

  lemma SquarePositive(x: real)
    requires x > 0.0
    ensures Square(x) > 0.0
  {
    TimesPositive(x, x);
  }

  /** p / s, strictly between 0 and 1 when 0 < p < s. */
  function Ratio(p: real, s: real): (w: real)
    requires 0.0 < p < s
    ensures 0.0 < w < 1.0
  {
    var w := p / s;
    assert w * s == p;
    if w <= 0.0 then
      MulNonNeg(-w, s);
      w
    else if w >= 1.0 then
      MulNonNeg(w - 1.0, s);
      w
    else w
  }

  /** The shares of p and q in p + q add up to one. */
  lemma RatiosComplement(p: real, q: real)
    requires p > 0.0 && q > 0.0
    ensures Ratio(p, p + q) + Ratio(q, q + p) == 1.0
  {
    var wp, wq := Ratio(p, p + q), Ratio(q, q + p);
    assert wp * (p + q) == p;
    assert wq * (p + q) == q;
    ZeroProduct(wp + wq - 1.0, p + q);
  }

  /** With both densities positive, the two strategies' weights add up to one. */
  lemma MisWeightsComplement(a: real, b: real)
    requires a > 0.0 && b > 0.0
    ensures MisWeight(a, b) + MisWeight(b, a) == 1.0
  {
    SquarePositive(a);
    SquarePositive(b);
    RatiosComplement(Square(a), Square(b));
  }

  /** A spectrum divided by a scalar, component by component. */
  function DivS(v: Vec3, s: real): Vec3
    requires s != 0.0
  {
    Vec3(v.x / s, v.y / s, v.z / s)
  }

  /** The radiance the loop holds after a miss. */
  function MissRadiance(env: Option<EnvLight>, st: PathState): Spectrum
  {
    match env
    case None => st.L
    case Some(e) =>
      var envL := e.eval(st.r.d);
      if st.hasLastBsdf && !st.lastSpecular then
        Add(st.L, Scale(MisWeight(st.lastPdf, e.pdf(st.r.d)), Mul(st.beta, envL)))
      else
        Add(st.L, Mul(st.beta, envL))
  }

  /** What next event estimation yields at a hit. */
  datatype NeeOutcome = NoLight | BlackBsdf | Light(c: Spectrum)

  /** The light sample's contribution beta f Le |cos| (w / pdfEnv). */
  function NeeTerm(beta: Spectrum, f: Spectrum, le: Spectrum, cosTheta: real, w: real, pdfEnv: real): Spectrum
    requires pdfEnv != 0.0
  {
    Scale(w / pdfEnv, Scale(cosTheta, Mul(Mul(beta, f), le)))
  }

  /**
   * Next event estimation: only with an environment map and a material that
   * is not specular; the sample must have positive density and non-black
   * radiance, and the shadow ray must escape the scene; then a black BSDF
   * value is reported as such, and any other gives the MIS-weighted term.
   */
  function Nee(scene: Scene, env: Option<EnvLight>, st: PathState, rec: SurfaceInteraction, u: Point2): NeeOutcome
  {
    if env.None? || scene.mat.isSpecular(rec) then NoLight
    else
      var s := env.value.sample(u);
      if !(s.pdfW > 0.0 && !IsBlack(s.le)) then NoLight
      else if scene.hit(SpawnRay(rec.p, rec.gn, s.wi)).Some? then NoLight
      else
        var f := scene.mat.eval(rec, Neg(st.r.d), s.wi);
        if IsBlack(f) then BlackBsdf
        else
          var cosTheta := Abs(Dot(rec.n, s.wi));
          var pdfBsdf := scene.mat.pdf(rec, Neg(st.r.d), s.wi);
          Light(NeeTerm(st.beta, f, s.le, cosTheta, MisWeight(s.pdfW, pdfBsdf), s.pdfW))
  }

  /**
   * BSDF sampling and the throughput update: a failed sample ends the path;
   * a specular sample multiplies beta by f; any other multiplies it by
   * f |cos| / pdf when pdf exceeds the floor and ends the path otherwise; a
   * black beta ends the path; otherwise the next ray leaves the hit point
   * along the sampled direction.
   */
  function Scatter(scene: Scene, st: PathState, rec: SurfaceInteraction, L: Spectrum, u: Point2): Step
  {
    match scene.mat.sample(rec, Neg(st.r.d), u)
    case None => Stop(L)
    case Some(s) =>
      var specular := IsSpecularSample(s);
      if !specular && !(s.pdf > PdfFloor) then Stop(L)
      else
        var beta :=
          if specular then Mul(st.beta, s.f)
          else Mul(st.beta, DivS(Scale(Abs(Dot(rec.n, s.wi)), s.f), s.pdf));
        if IsBlack(beta) then Stop(L)
        else Next(PathState(L, beta, s.pdf, specular, true, SpawnRay(rec.p, rec.gn, s.wi)))
  }

  /**
   * One iteration of the loop at the given depth: a miss adds the
   * environment's radiance and ends the path; a hit adds the emission, then
   * next event estimation, then samples the BSDF.
   */
  function Bounce(scene: Scene, env: Option<EnvLight>, st: PathState, depth: int, rng: PathRandom, v: Variant): Step
  {
    match scene.hit(st.r)
    case None => Stop(MissRadiance(env, st))
    case Some(rec) =>
      var L := Add(st.L, Mul(st.beta, scene.mat.emitted(rec, Neg(st.r.d))));
      match Nee(scene, env, st, rec, rng.light(depth))
      case NoLight => Scatter(scene, st, rec, L, rng.bsdf(depth))
      case Light(c) => Scatter(scene, st, rec, Add(L, c), rng.bsdf(depth))
      case BlackBsdf =>
        if v == AsWritten then Next(st.(L := L))
        else Scatter(scene, st, rec, L, rng.bsdf(depth))
  }

  /** The radiance the loop returns, from state st at depth on, with at most maxDepth bounces in all. */
  function Trace(scene: Scene, env: Option<EnvLight>, st: PathState, depth: int, maxDepth: int,
                 rng: PathRandom, v: Variant): Spectrum
    decreases maxDepth - depth
  {
    if depth >= maxDepth then st.L
    else
      match Bounce(scene, env, st, depth, rng, v)
      case Stop(L) => L
      case Next(next) => Trace(scene, env, next, depth + 1, maxDepth, rng, v)
  }

  // ---------------------------------------------------------------------
  // Properties of one bounce.

  /**
   * A miss always ends the path.  Without an environment map it adds
   * nothing; with one, the environment's radiance is weighted by the power
   * heuristic against the previous BSDF sample's density only after a
   * non-specular BSDF sample, and added with weight 1 otherwise.
   */
  lemma MissEndsPath(scene: Scene, env: Option<EnvLight>, st: PathState, depth: int, rng: PathRandom, v: Variant)
    requires scene.hit(st.r).None?
    ensures Bounce(scene, env, st, depth, rng, v).Stop?
    ensures env.None? ==> Bounce(scene, env, st, depth, rng, v).L == st.L
    ensures env.Some? ==>
      var envL := env.value.eval(st.r.d);
      var w := if st.hasLastBsdf && !st.lastSpecular then MisWeight(st.lastPdf, env.value.pdf(st.r.d)) else 1.0;
      0.0 <= w <= 1.0 &&
      Bounce(scene, env, st, depth, rng, v).L == Add(st.L, Scale(w, Mul(st.beta, envL)))
  {
    if env.Some? && !(st.hasLastBsdf && !st.lastSpecular) {
      var envL := env.value.eval(st.r.d);
      assert Scale(1.0, Mul(st.beta, envL)) == Mul(st.beta, envL);
    }
  }

  /** The radiance a step carries, whether the path stops or goes on. */
  function StepRadiance(s: Step): Spectrum
  {
    match s
    case Stop(L) => L
    case Next(st) => st.L
  }

  /**
   * On a hit the emission beta Le(-d) is always added, together with the
   * light sample's contribution when next event estimation yields one and
   * nothing else.
   */
  lemma HitAddsEmission(scene: Scene, env: Option<EnvLight>, st: PathState, depth: int, rng: PathRandom, v: Variant)
    requires scene.hit(st.r).Some?
    ensures var rec := scene.hit(st.r).value;
      var L := Add(st.L, Mul(st.beta, scene.mat.emitted(rec, Neg(st.r.d))));
      var nee := Nee(scene, env, st, rec, rng.light(depth));
      StepRadiance(Bounce(scene, env, st, depth, rng, v)) == (if nee.Light? then Add(L, nee.c) else L)
  {
    var rec := scene.hit(st.r).value;
    var L := Add(st.L, Mul(st.beta, scene.mat.emitted(rec, Neg(st.r.d))));
    var nee := Nee(scene, env, st, rec, rng.light(depth));
    ScatterKeepsRadiance(scene, st, rec, if nee.Light? then Add(L, nee.c) else L, rng.bsdf(depth));
  }

  /** BSDF sampling adds no radiance. */
  lemma ScatterKeepsRadiance(scene: Scene, st: PathState, rec: SurfaceInteraction, L: Spectrum, u: Point2)
    ensures StepRadiance(Scatter(scene, st, rec, L, u)) == L
  {
  }

  /**
   * Next event estimation contributes only with an environment map and a
   * non-specular material, when the light sample has positive density and
   * non-black radiance and its shadow ray escapes, and when the BSDF value
   * towards it is not black; the contribution is then the MIS-weighted term.
   */
  lemma NeeConditions(scene: Scene, env: Option<EnvLight>, st: PathState, rec: SurfaceInteraction, u: Point2)
    ensures Nee(scene, env, st, rec, u) != NoLight ==>
      env.Some? && !scene.mat.isSpecular(rec) &&
      env.value.sample(u).pdfW > 0.0 && !IsBlack(env.value.sample(u).le) &&
      scene.hit(SpawnRay(rec.p, rec.gn, env.value.sample(u).wi)).None?
    ensures Nee(scene, env, st, rec, u).BlackBsdf? ==>
      IsBlack(scene.mat.eval(rec, Neg(st.r.d), env.value.sample(u).wi))
    ensures Nee(scene, env, st, rec, u).Light? ==>
      var s := env.value.sample(u);
      var f := scene.mat.eval(rec, Neg(st.r.d), s.wi);
      !IsBlack(f) &&
      Nee(scene, env, st, rec, u).c ==
        NeeTerm(st.beta, f, s.le, Abs(Dot(rec.n, s.wi)), MisWeight(s.pdfW, scene.mat.pdf(rec, Neg(st.r.d), s.wi)), s.pdfW)
  {
  }

  /** Conversely, a sample that passes every test but meets a black BSDF value yields BlackBsdf. */
  lemma NeeBlackWhen(scene: Scene, env: Option<EnvLight>, st: PathState, rec: SurfaceInteraction, u: Point2)
    requires env.Some? && !scene.mat.isSpecular(rec)
    requires env.value.sample(u).pdfW > 0.0 && !IsBlack(env.value.sample(u).le)
    requires scene.hit(SpawnRay(rec.p, rec.gn, env.value.sample(u).wi)).None?
    requires IsBlack(scene.mat.eval(rec, Neg(st.r.d), env.value.sample(u).wi))
    ensures Nee(scene, env, st, rec, u) == BlackBsdf
  {
  }

  /**
   * In the corrected loop every bounce that goes on has sampled the BSDF:
   * the new state records the sample's density and specularity, its
   * throughput is not black and was updated by the sample's rule, and its
   * ray leaves the hit point along the sampled direction.
   */
  lemma NextFollowsSample(scene: Scene, env: Option<EnvLight>, st: PathState, depth: int, rng: PathRandom)
    requires Bounce(scene, env, st, depth, rng, Corrected).Next?
    ensures scene.hit(st.r).Some?
    ensures var rec := scene.hit(st.r).value;
      var next := Bounce(scene, env, st, depth, rng, Corrected).st;
      var os := scene.mat.sample(rec, Neg(st.r.d), rng.bsdf(depth));
      os.Some? &&
      next.hasLastBsdf && next.lastPdf == os.value.pdf && next.lastSpecular == IsSpecularSample(os.value) &&
      !IsBlack(next.beta) &&
      (IsSpecularSample(os.value) ==> next.beta == Mul(st.beta, os.value.f)) &&
      (!IsSpecularSample(os.value) ==>
         os.value.pdf > PdfFloor &&
         next.beta == Mul(st.beta, DivS(Scale(Abs(Dot(rec.n, os.value.wi)), os.value.f), os.value.pdf))) &&
      next.r == SpawnRay(rec.p, rec.gn, os.value.wi)
  {
    var rec := scene.hit(st.r).value;
    var L := Add(st.L, Mul(st.beta, scene.mat.emitted(rec, Neg(st.r.d))));
    var nee := Nee(scene, env, st, rec, rng.light(depth));
    var L' := if nee.Light? then Add(L, nee.c) else L;
    assert Bounce(scene, env, st, depth, rng, Corrected) == Scatter(scene, st, rec, L', rng.bsdf(depth));
  }

  /** With no bounce allowed the loop returns black. */
  lemma NoBouncesNoRadiance(scene: Scene, env: Option<EnvLight>, r: Ray, maxDepth: int, rng: PathRandom, v: Variant)
    requires maxDepth <= 0
    ensures Trace(scene, env, Start(r), 0, maxDepth, rng, v) == Black
  {
  }

  // ---------------------------------------------------------------------
  // Radiance is never negative when the collaborators return physical values.

  /**
   * Physically valid collaborators: emission, BSDF values, sampled BSDF
   * values, environment radiance and sampled environment radiance are
   * never negative.
   */
  ghost predicate Physical(scene: Scene, env: Option<EnvLight>)
  {
    (forall rec, wo :: NonNegative(scene.mat.emitted(rec, wo))) &&
    (forall rec, wo, wi :: NonNegative(scene.mat.eval(rec, wo, wi))) &&
    (forall rec, wo, u :: scene.mat.sample(rec, wo, u).Some? ==> NonNegative(scene.mat.sample(rec, wo, u).value.f)) &&
    (env.Some? ==> forall d :: NonNegative(env.value.eval(d))) &&
    (env.Some? ==> forall u :: NonNegative(env.value.sample(u).le))
  }

  lemma MulNonNegV(a: Spectrum, b: Spectrum)
    requires NonNegative(a) && NonNegative(b)
    ensures NonNegative(Mul(a, b))
  {
    MulNonNeg(a.x, b.x);
    MulNonNeg(a.y, b.y);
    MulNonNeg(a.z, b.z);
  }

  lemma ScaleNonNegV(s: real, v: Spectrum)
    requires s >= 0.0 && NonNegative(v)
    ensures NonNegative(Scale(s, v))
  {
    MulNonNeg(s, v.x);
    MulNonNeg(s, v.y);
    MulNonNeg(s, v.z);
  }

  lemma AddNonNegV(a: Spectrum, b: Spectrum)
    requires NonNegative(a) && NonNegative(b)
    ensures NonNegative(Add(a, b))
  {
  }

  lemma DivNonNeg(x: real, y: real)
    requires x >= 0.0 && y > 0.0
    ensures x / y >= 0.0
  {
    var q := x / y;
    assert q * y == x;
    if q < 0.0 {
      MulPos(-q, y);
    }
  }

  /** A bounce from a state with non-negative radiance and throughput keeps both non-negative. */
  lemma BounceNonNegative(scene: Scene, env: Option<EnvLight>, st: PathState, depth: int, rng: PathRandom, v: Variant)
    requires Physical(scene, env)
    requires NonNegative(st.L) && NonNegative(st.beta)
    ensures NonNegative(StepRadiance(Bounce(scene, env, st, depth, rng, v)))
    ensures Bounce(scene, env, st, depth, rng, v).Next? ==> NonNegative(Bounce(scene, env, st, depth, rng, v).st.beta)
  {
    match scene.hit(st.r)
    case None =>
      MissNonNegative(scene, env, st);
    case Some(rec) =>
      MulNonNegV(st.beta, scene.mat.emitted(rec, Neg(st.r.d)));
      var L := Add(st.L, Mul(st.beta, scene.mat.emitted(rec, Neg(st.r.d))));
      var u := rng.bsdf(depth);
      NeeNonNegative(scene, env, st, rec, rng.light(depth));
      match Nee(scene, env, st, rec, rng.light(depth))
      case Light(c) =>
        ScatterNonNegative(scene, st, rec, Add(L, c), u);
      case _ =>
        ScatterNonNegative(scene, st, rec, L, u);
  }

  /** The environment's contribution on a miss is non-negative. */
  lemma MissNonNegative(scene: Scene, env: Option<EnvLight>, st: PathState)
    requires Physical(scene, env)
    requires NonNegative(st.L) && NonNegative(st.beta)
    ensures NonNegative(MissRadiance(env, st))
  {
    if env.Some? {
      var e := env.value;
      MulNonNegV(st.beta, e.eval(st.r.d));
      ScaleNonNegV(MisWeight(st.lastPdf, e.pdf(st.r.d)), Mul(st.beta, e.eval(st.r.d)));
    }
  }

  /** The light sample's contribution is non-negative. */
  lemma NeeNonNegative(scene: Scene, env: Option<EnvLight>, st: PathState, rec: SurfaceInteraction, u: Point2)
    requires Physical(scene, env)
    requires NonNegative(st.beta)
    ensures Nee(scene, env, st, rec, u).Light? ==> NonNegative(Nee(scene, env, st, rec, u).c)
  {
    if Nee(scene, env, st, rec, u).Light? {
      var s := env.value.sample(u);
      var f := scene.mat.eval(rec, Neg(st.r.d), s.wi);
      var w := MisWeight(s.pdfW, scene.mat.pdf(rec, Neg(st.r.d), s.wi));
      MulNonNegV(st.beta, f);
      MulNonNegV(Mul(st.beta, f), s.le);
      ScaleNonNegV(Abs(Dot(rec.n, s.wi)), Mul(Mul(st.beta, f), s.le));
      DivNonNeg(w, s.pdfW);
      ScaleNonNegV(w / s.pdfW, Scale(Abs(Dot(rec.n, s.wi)), Mul(Mul(st.beta, f), s.le)));
    }
  }

  /** BSDF sampling keeps the radiance and the new throughput non-negative. */
  lemma ScatterNonNegative(scene: Scene, st: PathState, rec: SurfaceInteraction, L: Spectrum, u: Point2)
    requires Physical(scene, None)
    requires NonNegative(L) && NonNegative(st.beta)
    ensures NonNegative(StepRadiance(Scatter(scene, st, rec, L, u)))
    ensures Scatter(scene, st, rec, L, u).Next? ==> NonNegative(Scatter(scene, st, rec, L, u).st.beta)
  {
    var os := scene.mat.sample(rec, Neg(st.r.d), u);
    if os.Some? {
      var sm := os.value;
      MulNonNegV(st.beta, sm.f);
      if !IsSpecularSample(sm) && sm.pdf > PdfFloor {
        var g := Scale(Abs(Dot(rec.n, sm.wi)), sm.f);
        ScaleNonNegV(Abs(Dot(rec.n, sm.wi)), sm.f);
        DivNonNeg(g.x, sm.pdf);
        DivNonNeg(g.y, sm.pdf);
        DivNonNeg(g.z, sm.pdf);
        MulNonNegV(st.beta, DivS(g, sm.pdf));
      }
    }
  }

  /** With physical collaborators the loop never returns negative radiance. */
  lemma {:induction false} TraceNonNegative(scene: Scene, env: Option<EnvLight>, st: PathState, depth: int, maxDepth: int,
                                             rng: PathRandom, v: Variant)
    requires Physical(scene, env)
    requires NonNegative(st.L) && NonNegative(st.beta)
    ensures NonNegative(Trace(scene, env, st, depth, maxDepth, rng, v))
    decreases maxDepth - depth
  {
    if depth < maxDepth {
      BounceNonNegative(scene, env, st, depth, rng, v);
      match Bounce(scene, env, st, depth, rng, v)
      case Stop(L) =>
      case Next(next) =>
        TraceNonNegative(scene, env, next, depth + 1, maxDepth, rng, v);
    }
  }

  // ---------------------------------------------------------------------
  // The black-BSDF continue.

  /** The hit the camera ray finds: a point on the plane z = -1 facing the camera. */
  const LightHit: SurfaceInteraction :=
    SurfaceInteraction(Vec3(0.0, 0.0, -1.0), Vec3(0.0, 0.0, 1.0), Vec3(0.0, 0.0, 1.0), Point2(0.0, 0.0), 1.0,
                       Some(0), Black, Black, Vec3(0.0, 0.0, 1.0))

  /** Rays heading down the z axis meet the light; every other ray escapes. */
  function LightSceneHit(r: Ray): Option<SurfaceInteraction>
  {
    if r.d.z < 0.0 then Some(LightHit) else None
  }

  /** One grey area light of brightness emit facing the camera, with the area light's material calls. */
  function LightScene(emit: real): Scene
  {
    Scene(
      LightSceneHit,
      MaterialOps(
        (rec, wo) => DiffuseLight.Emitted(Splat(emit), rec, wo),
        rec => DefaultIsSpecular,
        (rec, wo, wi) => DiffuseLight.Eval(Splat(emit), rec, wo, wi, Radiance),
        (rec, wo, wi) => DiffuseLight.Pdf(rec, wo, wi),
        (rec, wo, u) => DiffuseLight.Sample(Splat(emit), rec, wo, u, Radiance)))
  }

  /** A uniform sky of brightness sky whose every sample points up the z axis with density 1. */
  function Sky(sky: real): EnvLight
  {
    EnvLight(d => Splat(sky), d => 1.0, u => EnvMaps.EnvSample(Splat(sky), Vec3(0.0, 0.0, 1.0), 1.0))
  }

  /** The shadow ray towards the sky sample heads up the z axis and escapes. */
  lemma ShadowRayEscapes()
    ensures LightSceneHit(SpawnRay(LightHit.p, LightHit.gn, Vec3(0.0, 0.0, 1.0))).None?
  {
  }

  /** The light's material is not specular and reflects nothing towards any direction. */
  lemma LightMaterial(emit: real, wo: Vec3, wi: Vec3)
    ensures !LightScene(emit).mat.isSpecular(LightHit)
    ensures IsBlack(LightScene(emit).mat.eval(LightHit, wo, wi))
  {
  }

  /** Every sky sample has the same bright value, direction and density. */
  lemma SkySample(sky: real, u: Point2)
    ensures Sky(sky).sample(u) == EnvMaps.EnvSample(Splat(sky), Vec3(0.0, 0.0, 1.0), 1.0)
  {
  }

  /**
   * At the light, next event estimation sees an unoccluded, bright sky
   * sample and the light's black BSDF value.
   */
  lemma LightNeeIsBlack(emit: real, sky: real, st: PathState, u: Point2)
    requires sky > 0.0
    ensures Nee(LightScene(emit), Some(Sky(sky)), st, LightHit, u) == BlackBsdf
  {
    var scene, env := LightScene(emit), Some(Sky(sky));
    var wi := Vec3(0.0, 0.0, 1.0);
    var s := env.value.sample(u);
    SkySample(sky, u);
    assert s == EnvMaps.EnvSample(Splat(sky), wi, 1.0);
    assert !IsBlack(s.le);
    ShadowRayEscapes();
    assert scene.hit(SpawnRay(LightHit.p, LightHit.gn, s.wi)).None?;
    LightMaterial(emit, Neg(st.r.d), wi);
    NeeBlackWhen(scene, env, st, LightHit, u);
  }

  /** A ray heading down the z axis meets the light, which shows it its front. */
  lemma RaySeesLight(emit: real, r: Ray)
    requires r.d.z < 0.0
    ensures LightScene(emit).hit(r) == Some(LightHit)
    ensures LightScene(emit).mat.emitted(LightHit, Neg(r.d)) == Splat(emit)
  {
    assert Dot(LightHit.n, Neg(r.d)) > 0.0;
  }

  /** Next event estimation never looks at the radiance gathered so far. */
  lemma NeeIgnoresRadiance(scene: Scene, env: Option<EnvLight>, st: PathState, rec: SurfaceInteraction, u: Point2, L: Spectrum)
    ensures Nee(scene, env, st.(L := L), rec, u) == Nee(scene, env, st, rec, u)
  {
  }

  /** The emission a bounce adds where the path's ray meets a surface. */
  function SurfaceEmission(scene: Scene, st: PathState): Spectrum
    requires scene.hit(st.r).Some?
  {
    Mul(st.beta, scene.mat.emitted(scene.hit(st.r).value, Neg(st.r.d)))
  }

  /** The path's ray hits a surface where every remaining light sample meets a black BSDF value. */
  ghost predicate BlackBsdfFrom(scene: Scene, env: Option<EnvLight>, st: PathState, depth: int, maxDepth: int, rng: PathRandom)
  {
    scene.hit(st.r).Some? &&
    forall d :: depth <= d < maxDepth ==> Nee(scene, env, st, scene.hit(st.r).value, rng.light(d)) == BlackBsdf
  }

  /**
   * As written, a path whose ray hits a surface where every light sample
   * meets a black BSDF value never leaves that surface: each remaining
   * bounce adds the surface's emission again, so the estimate grows by one
   * emission per bounce.
   */
  lemma {:induction false} AsWrittenRepeatsEmission(scene: Scene, env: Option<EnvLight>, st: PathState,
                                                    depth: int, maxDepth: int, rng: PathRandom)
    requires depth <= maxDepth
    requires BlackBsdfFrom(scene, env, st, depth, maxDepth, rng)
    ensures Trace(scene, env, st, depth, maxDepth, rng, AsWritten)
         == Add(st.L, Scale((maxDepth - depth) as real, SurfaceEmission(scene, st)))
    decreases maxDepth - depth
  {
    var rec := scene.hit(st.r).value;
    var e := SurfaceEmission(scene, st);
    if depth == maxDepth {
      assert Add(st.L, Scale(0.0, e)) == st.L;
    } else {
      var next := st.(L := Add(st.L, e));
      assert Bounce(scene, env, st, depth, rng, AsWritten) == Next(next);
      forall d | depth + 1 <= d < maxDepth
        ensures Nee(scene, env, next, rec, rng.light(d)) == BlackBsdf
      {
        NeeIgnoresRadiance(scene, env, st, rec, rng.light(d), next.L);
      }
      AsWrittenRepeatsEmission(scene, env, next, depth + 1, maxDepth, rng);
      var k := (maxDepth - depth) as real;
      ScaleSucc(k - 1.0, e);
      assert Add(Add(st.L, e), Scale(k - 1.0, e)) == Add(st.L, Add(Scale(k - 1.0, e), e));
    }
  }

  /**
   * Corrected, the same surface ends the path at once when its BSDF draws
   * no sample: its emission is counted a single time.
   */
  lemma CorrectedStopsAtBlackBsdf(scene: Scene, env: Option<EnvLight>, st: PathState,
                                  depth: int, maxDepth: int, rng: PathRandom)
    requires depth < maxDepth
    requires scene.hit(st.r).Some?
    requires Nee(scene, env, st, scene.hit(st.r).value, rng.light(depth)) == BlackBsdf
    requires scene.mat.sample(scene.hit(st.r).value, Neg(st.r.d), rng.bsdf(depth)).None?
    ensures Trace(scene, env, st, depth, maxDepth, rng, Corrected)
         == Add(st.L, Mul(st.beta, scene.mat.emitted(scene.hit(st.r).value, Neg(st.r.d))))
  {
  }

  /** Every bounce at the light meets a black BSDF value, whatever light sample it draws. */
  lemma LightNeeAlwaysBlack(emit: real, sky: real, st: PathState, maxDepth: int, rng: PathRandom)
    requires sky > 0.0
    ensures forall d :: 0 <= d < maxDepth ==>
      Nee(LightScene(emit), Some(Sky(sky)), st, LightHit, rng.light(d)) == BlackBsdf
  {
    forall d | 0 <= d < maxDepth
      ensures Nee(LightScene(emit), Some(Sky(sky)), st, LightHit, rng.light(d)) == BlackBsdf
    {
      LightNeeIsBlack(emit, sky, st, rng.light(d));
    }
  }

  /**
   * As written: a camera ray that sees an area light of brightness emit
   * under a bright sky gets the light's emission once per allowed bounce,
   * since the light's black BSDF makes the loop continue with the same
   * ray; the estimate is maxDepth times emit instead of emit, whatever the
   * random numbers.
   */
  lemma BlackBsdfRepeatsEmission(emit: real, sky: real, r: Ray, maxDepth: int, rng: PathRandom)
    requires sky > 0.0 && r.d.z < 0.0 && maxDepth >= 0
    ensures Trace(LightScene(emit), Some(Sky(sky)), Start(r), 0, maxDepth, rng, AsWritten)
         == Scale(maxDepth as real, Splat(emit))
  {
    var st0 := Start(r);
    var scene := LightScene(emit);
    assert scene.hit(r).Some? && SurfaceEmission(scene, st0) == Splat(emit) by { RaySeesLight(emit, r); }
    assert BlackBsdfFrom(scene, Some(Sky(sky)), st0, 0, maxDepth, rng) by {
      RaySeesLight(emit, r);
      LightNeeAlwaysBlack(emit, sky, st0, maxDepth, rng);
    }
    AsWrittenRepeatsFromStart(scene, Some(Sky(sky)), r, maxDepth, rng);
  }

  /** From the camera, the repeated emission adds up to maxDepth copies. */
  lemma AsWrittenRepeatsFromStart(scene: Scene, env: Option<EnvLight>, r: Ray, maxDepth: int, rng: PathRandom)
    requires maxDepth >= 0 && BlackBsdfFrom(scene, env, Start(r), 0, maxDepth, rng)
    ensures Trace(scene, env, Start(r), 0, maxDepth, rng, AsWritten) == Scale(maxDepth as real, SurfaceEmission(scene, Start(r)))
  {
    var v := Scale(maxDepth as real, SurfaceEmission(scene, Start(r)));
    assert Trace(scene, env, Start(r), 0, maxDepth, rng, AsWritten) == Add(Start(r).L, v) by {
      AsWrittenRepeatsEmission(scene, env, Start(r), 0, maxDepth, rng);
    }
    AddBlack(v);
  }

  lemma AddBlack(v: Vec3)
    ensures Add(Black, v) == v
  {
  }

  /**
   * Corrected: dropping only the light sample's contribution, the same path
   * counts the light's emission once, whatever the bounce limit and the
   * random numbers.
   */
  lemma CorrectedCountsEmissionOnce(emit: real, sky: real, r: Ray, maxDepth: int, rng: PathRandom)
    requires sky > 0.0 && r.d.z < 0.0 && maxDepth >= 1
    ensures Trace(LightScene(emit), Some(Sky(sky)), Start(r), 0, maxDepth, rng, Corrected) == Splat(emit)
  {
    var st0 := Start(r);
    RaySeesLight(emit, r);
    LightNeeIsBlack(emit, sky, st0, rng.light(0));
    assert LightScene(emit).mat.sample(LightHit, Neg(r.d), rng.bsdf(0)).None?;
    CorrectedStopsAtBlackBsdf(LightScene(emit), Some(Sky(sky)), st0, 0, maxDepth, rng);
  }

  // ---------------------------------------------------------------------
  // The integrator.

  /** The random numbers one pixel sample draws: the jitter, the lens sample and the path's. */
  datatype PixelRandom = PixelRandom(jitter: (int, int, int) -> Point2, lens: (int, int, int) -> Point2,
                                     path: (int, int, int) -> PathRandom)

  /** The film coordinate of pixel column (or row) i jittered by xi, over n pixels. */
  function Jitter(i: int, xi: real, n: int): (u: real)
    requires n > 0
  {
    (i as real + xi) / n as real
  }

  /** A jitter in [0, 1) keeps the coordinate inside the pixel's own interval [i/n, (i+1)/n). */
  lemma JitterInPixel(i: int, xi: real, n: int)
    requires n > 0 && 0.0 <= xi < 1.0
    ensures i as real / n as real <= Jitter(i, xi, n) < (i + 1) as real / n as real
  {
    var N := n as real;
    var u := Jitter(i, xi, n);
    assert u * N == i as real + xi;
    var lo := i as real / N;
    var hi := (i + 1) as real / N;
    assert lo * N == i as real;
    assert hi * N == i as real + 1.0;
    if u < lo {
      MulPos(lo - u, N);
    }
    if u >= hi {
      MulNonNeg(u - hi, N);
    }
  }

  /** The film stores row j of the render at row height - 1 - j. */
  function FlippedRow(j: int, height: int): (y: int)
    ensures 0 <= j < height ==> 0 <= y < height
  {
    height - 1 - j
  }

  /** f(0) + ... + f(k - 1). */
  function SumUpTo(f: int -> Spectrum, k: nat): Spectrum
  {
    if k == 0 then Black else Add(SumUpTo(f, k - 1), f(k - 1))
  }

  /** k equal terms add up to k times the term. */
  lemma {:induction false} SumOfEqual(f: int -> Spectrum, k: nat, c: Spectrum)
    requires forall s :: 0 <= s < k ==> f(s) == c
    ensures SumUpTo(f, k) == Scale(k as real, c)
  {
    if k > 0 {
      SumOfEqual(f, k - 1, c);
      ScaleSucc((k - 1) as real, c);
    }
  }

  lemma ScaleSucc(n: real, c: Spectrum)
    ensures Add(Scale(n, c), c) == Scale(n + 1.0, c)
  {
  }

  /** Dividing n c by n gives back c. */
  lemma MeanOfScaled(c: Spectrum, n: real)
    requires n != 0.0
    ensures DivS(Scale(n, c), n) == c
  {
    DivCancel(c.x, n);
    DivCancel(c.y, n);
    DivCancel(c.z, n);
  }

  lemma DivCancel(x: real, n: real)
    requires n != 0.0
    ensures (n * x) / n == x
  {
  }

  class PathIntegrator {
    const camera: (real, real, Point2) -> Ray
    const env: Option<EnvLight>
    const maxDepth: int
    const spp: int

    constructor (camera: (real, real, Point2) -> Ray, env: Option<EnvLight>, maxDepth: int, spp: int)
      ensures this.camera == camera && this.env == env && this.maxDepth == maxDepth && this.spp == spp
    {
      this.camera := camera;
      this.env := env;
      this.maxDepth := maxDepth;
      this.spp := spp;
    }

    /** The radiance of sample s of pixel (i, j) on a width x height film. */
    function SampleRadiance(scene: Scene, rnd: PixelRandom, i: int, j: int, s: int, width: int, height: int): Spectrum
      requires width > 0 && height > 0
    {
      var jit := rnd.jitter(i, j, s);
      var r := camera(Jitter(i, jit.x, width), Jitter(j, jit.y, height), rnd.lens(i, j, s));
      Trace(scene, env, Start(r), 0, maxDepth, rnd.path(i, j, s), Corrected)
    }

    /** The samples of pixel (i, j), by sample index. */
    function PixelSamples(scene: Scene, rnd: PixelRandom, i: int, j: int, width: int, height: int): int -> Spectrum
      requires width > 0 && height > 0
    {
      s => SampleRadiance(scene, rnd, i, j, s, width, height)
    }

    /**
     * The pixel's value: the mean of spp samples; with no positive sample
     * count the sum 0 divided by spp is NaN or zero, and either way black.
     */
    function PixelColor(scene: Scene, rnd: PixelRandom, i: int, j: int, width: int, height: int): Spectrum
      requires width > 0 && height > 0
    {
      if spp > 0 then DivS(SumUpTo(PixelSamples(scene, rnd, i, j, width, height), spp), spp as real) else Black
    }

    /** When every sample of a pixel sees the same radiance, the pixel is that radiance. */
    lemma MeanOfEqualSamples(scene: Scene, rnd: PixelRandom, i: int, j: int, width: int, height: int, c: Spectrum)
      requires width > 0 && height > 0 && spp > 0
      requires forall s :: 0 <= s < spp ==> SampleRadiance(scene, rnd, i, j, s, width, height) == c
      ensures PixelColor(scene, rnd, i, j, width, height) == c
    {
      var f := PixelSamples(scene, rnd, i, j, width, height);
      assert forall s :: 0 <= s < spp ==> f(s) == c;
      SumOfEqual(f, spp, c);
      MeanOfScaled(c, spp as real);
    }

    /**
     * Li: the loop from L = 0, beta = 1 and no previous BSDF sample, for at
     * most maxDepth bounces, returning the radiance the path gathered.
     */
    method Li(r: Ray, scene: Scene, rng: PathRandom) returns (L: Spectrum)
      ensures L == Trace(scene, env, Start(r), 0, maxDepth, rng, Corrected)
    {
      L := Black;
      var beta := Splat(1.0);
      var lastPdf := 0.0;
      var lastSpecular := false;
      var hasLastBsdf := false;
      var ray := r;
      var depth := 0;
      while depth < maxDepth
        invariant Trace(scene, env, PathState(L, beta, lastPdf, lastSpecular, hasLastBsdf, ray), depth, maxDepth, rng, Corrected)
               == Trace(scene, env, Start(r), 0, maxDepth, rng, Corrected)
        decreases maxDepth - depth
      {
        var hit := scene.hit(ray);
        if hit.None? {
          if env.Some? {
            var envL := env.value.eval(ray.d);
            if hasLastBsdf && !lastSpecular {
              var pdfEnv := env.value.pdf(ray.d);
              var w := MisWeight(lastPdf, pdfEnv);
              L := Add(L, Scale(w, Mul(beta, envL)));
            } else {
              L := Add(L, Mul(beta, envL));
            }
          }
          return;
        }
        var rec := hit.value;
        var st := PathState(L, beta, lastPdf, lastSpecular, hasLastBsdf, ray);
        L := Add(L, Mul(beta, scene.mat.emitted(rec, Neg(ray.d))));

        if env.Some? && !scene.mat.isSpecular(rec) {
          var s := env.value.sample(rng.light(depth));
          if s.pdfW > 0.0 && !IsBlack(s.le) {
            var shadow := SpawnRay(rec.p, rec.gn, s.wi);
            if scene.hit(shadow).None? {
              var f := scene.mat.eval(rec, Neg(ray.d), s.wi);
              // A black f drops this light sample only; the loop as written
              // continues here instead (see BlackBsdfRepeatsEmission).
              if !IsBlack(f) {
                var cosTheta := Abs(Dot(rec.n, s.wi));
                var pdfBsdf := scene.mat.pdf(rec, Neg(ray.d), s.wi);
                var w := MisWeight(s.pdfW, pdfBsdf);
                L := Add(L, NeeTerm(beta, f, s.le, cosTheta, w, s.pdfW));
              }
            }
          }
        }

        var bsdfSample := scene.mat.sample(rec, Neg(ray.d), rng.bsdf(depth));
        if bsdfSample.None? {
          return;
        }
        var sample := bsdfSample.value;
        lastPdf := sample.pdf;
        lastSpecular := IsSpecularSample(sample);
        hasLastBsdf := true;
        if lastSpecular {
          beta := Mul(beta, sample.f);
        } else {
          var cosTheta := Abs(Dot(rec.n, sample.wi));
          if sample.pdf > PdfFloor {
            beta := Mul(beta, DivS(Scale(cosTheta, sample.f), sample.pdf));
          } else {
            return;
          }
        }
        if IsBlack(beta) {
          return;
        }
        ray := SpawnRay(rec.p, rec.gn, sample.wi);
        assert Bounce(scene, env, st, depth, rng, Corrected)
            == Next(PathState(L, beta, lastPdf, lastSpecular, hasLastBsdf, ray));
        depth := depth + 1;
      }
    }

    /** The mean of the spp samples of pixel (i, j), summed in sample order. */
    method RenderPixel(scene: Scene, rnd: PixelRandom, i: int, j: int, width: int, height: int) returns (c: Spectrum)
      requires width > 0 && height > 0
      ensures c == PixelColor(scene, rnd, i, j, width, height)
    {
      var sum := Black;
      var s := 0;
      while s < spp
        invariant 0 <= s && (spp >= 0 ==> s <= spp)
        invariant sum == SumUpTo(PixelSamples(scene, rnd, i, j, width, height), s)
      {
        var jit := rnd.jitter(i, j, s);
        var u := Jitter(i, jit.x, width);
        var v := Jitter(j, jit.y, height);
        var r := camera(u, v, rnd.lens(i, j, s));
        var radiance := Li(r, scene, rnd.path(i, j, s));
        sum := Add(sum, radiance);
        s := s + 1;
      }
      if spp > 0 {
        c := DivS(sum, spp as real);
      } else {
        c := Black;
      }
    }

    /**
     * The rows before j, and the first i pixels of row j, hold their pixel
     * colours, each stored at the flipped row.
     */
    ghost predicate Rendered(px: seq<Spectrum>, scene: Scene, rnd: PixelRandom, width: int, height: int, j: int, i: int)
      requires width > 0 && height > 0 && |px| == width * height
    {
      forall jj, ii :: 0 <= jj < height && 0 <= ii < width && (jj < j || (jj == j && ii < i)) ==>
        0 <= Images.PixelIndex(width, ii, FlippedRow(jj, height)) < |px| &&
        px[Images.PixelIndex(width, ii, FlippedRow(jj, height))] == PixelColor(scene, rnd, ii, jj, width, height)
    }

    /** Storing pixel (i, j) at its flipped row extends what has been rendered by that pixel. */
    lemma RenderedStep(px: seq<Spectrum>, scene: Scene, rnd: PixelRandom, width: int, height: int, j: int, i: int, c: Spectrum)
      requires width > 0 && height > 0 && |px| == width * height
      requires 0 <= j < height && 0 <= i < width
      requires Rendered(px, scene, rnd, width, height, j, i)
      requires c == PixelColor(scene, rnd, i, j, width, height)
      ensures 0 <= Images.PixelIndex(width, i, FlippedRow(j, height)) < |px|
      ensures Rendered(px[Images.PixelIndex(width, i, FlippedRow(j, height)) := c], scene, rnd, width, height, j, i + 1)
    {
      Images.PixelIndexBijective(width, height);
      var k := Images.PixelIndex(width, i, FlippedRow(j, height));
      var px' := px[k := c];
      forall jj, ii | 0 <= jj < height && 0 <= ii < width && (jj < j || (jj == j && ii < i + 1))
        ensures 0 <= Images.PixelIndex(width, ii, FlippedRow(jj, height)) < |px'|
        ensures px'[Images.PixelIndex(width, ii, FlippedRow(jj, height))] == PixelColor(scene, rnd, ii, jj, width, height)
      {
        if jj != j || ii != i {
          assert Images.PixelIndex(width, ii, FlippedRow(jj, height)) != k;
        }
      }
    }

    /**
     * render: every pixel (i, j) of the film receives the mean of its spp
     * jittered samples, stored at row height - 1 - j.
     */
    method Render(scene: Scene, film: Films.Film, rnd: PixelRandom)
      requires film.Valid()
      modifies film.pixels
      ensures film.width > 0 && film.height > 0 ==>
        Rendered(film.pixels[..], scene, rnd, film.width, film.height, film.height, 0)
    {
      var width := film.width;
      var height := film.height;
      if width <= 0 || height <= 0 {
        return;
      }
      var j := 0;
      while j < height
        invariant 0 <= j <= height
        invariant Rendered(film.pixels[..], scene, rnd, width, height, j, 0)
      {
        var i := 0;
        while i < width
          invariant 0 <= i <= width
          invariant Rendered(film.pixels[..], scene, rnd, width, height, j, i)
        {
          var c := RenderPixel(scene, rnd, i, j, width, height);
          RenderedStep(film.pixels[..], scene, rnd, width, height, j, i, c);
          film.SetPixel(i, FlippedRow(j, height), c);
          i := i + 1;
        }
        j := j + 1;
      }
    }
  }
}
