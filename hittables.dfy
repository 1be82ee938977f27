// The scene graph of intersectable objects: spheres, lists of objects and
// BVH nodes.  The virtual hit(ray, rec) of each kind is modelled by the
// specification function Trace, which returns the verdict together with the
// ray (whose mutable tMax a hit shrinks) and the caller's record; the
// methods HitAny, HitList and HitBvh perform the same calls step by step and
// are proved equal to Trace.
module Hittables {
  import opened Types
  import opened Rays
  import opened Interaction
  import opened Aabb
  import opened Spheres

  datatype Hittable =
    | Sphere(shape: SphereShape)
    | List(objects: seq<Hittable>)
    | Bvh(left: Hittable, right: Option<Hittable>, box: AABB, splitAxis: Axis)

  /** The bounds() of each kind: the sphere's box, the fold of unite over a list, a node's cached box. */
  function Bounds(h: Hittable): AABB
    decreases h, 1, 0
  {
    match h
    case Sphere(s) => SphereBounds(s)
    case List(objs) => if |objs| == 0 then ZeroBox else FoldBounds(h, |objs|)
    case Bvh(_, _, box, _) => box
  }

  /** unite(...unite(bounds(objects[0]), bounds(objects[1]))..., bounds(objects[n-1])). */
  function FoldBounds(h: Hittable, n: nat): AABB
    requires h.List? && 1 <= n <= |h.objects|
    decreases h, 0, n
  {
    if n == 1 then Bounds(h.objects[0]) else Unite(FoldBounds(h, n - 1), Bounds(h.objects[n - 1]))
  }

  /** A non-empty list's bounds enclose the bounds of each of its objects. */
  lemma ListBoundsEnclose(h: Hittable, i: int)
    requires h.List? && 0 <= i < |h.objects|
    ensures Encloses(Bounds(h), Bounds(h.objects[i]))
  {
    FoldBoundsEnclose(h, |h.objects|, i);
  }

  lemma {:induction false} FoldBoundsEnclose(h: Hittable, n: nat, i: int)
    requires h.List? && 1 <= n <= |h.objects| && 0 <= i < n
    ensures Encloses(FoldBounds(h, n), Bounds(h.objects[i]))
  {
    if n > 1 && i < n - 1 {
      FoldBoundsEnclose(h, n - 1, i);
      EnclosesTransitive(FoldBounds(h, n), FoldBounds(h, n - 1), Bounds(h.objects[i]));
    }
  }

  /**
   * The conditions under which every hit call in h is defined: spheres
   * have a non-zero radius (the normal divides by it) and, where a BVH
   * box is tested, no direction component is zero.
   */
  predicate Traceable(h: Hittable, d: Vec3)
  {
    match h
    case Sphere(s) => s.radius != 0.0
    case List(objs) => forall i :: 0 <= i < |objs| ==> Traceable(objs[i], d)
    case Bvh(left, right, _, _) =>
      NonZeroComponents(d) && Traceable(left, d) && (right.Some? ==> Traceable(right.value, d))
  }

  /** r2 is r with tMax shrunk to t, and t lay in r's interval. */
  predicate Narrowed(r: Ray, r2: Ray, t: real)
  {
    r2 == r.(tMax := Fin(t)) && InRange(t, r)
  }

  /**
   * The contract every hit honours: on a hit the ray's tMax becomes the
   * record's t, which lay in the old interval; on a miss neither the ray
   * nor the record changes.
   */
  predicate Honours(r: Ray, rec: SurfaceInteraction, res: HitResult)
  {
    (res.hit ==> Narrowed(r, res.ray, res.rec.t)) && (!res.hit ==> res.ray == r && res.rec == rec)
  }

  lemma NarrowedTransitive(r: Ray, r1: Ray, t1: real, r2: Ray, t2: real)
    ensures Narrowed(r, r1, t1) && Narrowed(r1, r2, t2) ==> Narrowed(r, r2, t2)
  {
  }

  /** hit(r, rec) of h, as the verdict, the resulting ray and the resulting record. */
  function Trace(h: Hittable, r: Ray, rec: SurfaceInteraction, sqrt: real -> real): (res: HitResult)
    requires Traceable(h, r.d)
    decreases h, 1, 0
    ensures Honours(r, rec, res)
  {
    match h
    case Sphere(s) => SphereTrace(s, r, rec, sqrt)
    case List(objs) => TraceList(h, 0, r, EmptyInteraction, rec, false, sqrt)
    case Bvh(left, right, box, axis) =>
      if !SlabHit(box, r, r.tMin, r.tMax) then HitResult(false, r, rec)
      else if right.None? then Trace(left, r, rec, sqrt)
      else if Comp(r.d, axis) < 0.0 then TracePair(h, right.value, left, r, rec, sqrt)
      else TracePair(h, left, right.value, r, rec, sqrt)
  }

  /** An internal node tests first and then second on the ray first left behind. */
  function TracePair(h: Hittable, first: Hittable, second: Hittable, r: Ray, rec: SurfaceInteraction, sqrt: real -> real): (res: HitResult)
    requires first < h && second < h
    requires Traceable(first, r.d) && Traceable(second, r.d)
    decreases h, 0, 0
    ensures Honours(r, rec, res)
  {
    var a := Trace(first, r, rec, sqrt);
    var b := Trace(second, a.ray, a.rec, sqrt);
    NarrowedTransitive(r, a.ray, a.rec.t, b.ray, b.rec.t);
    HitResult(a.hit || b.hit, b.ray, b.rec)
  }

  /**
   * The list's loop from object i on: cur is the ray as shrunk so far,
   * tempRec the scratch record every object writes into, rec the caller's
   * record (overwritten by tempRec on each hit).
   */
  function TraceList(h: Hittable, i: nat, cur: Ray, tempRec: SurfaceInteraction, rec: SurfaceInteraction,
                     hitAny: bool, sqrt: real -> real): (res: HitResult)
    requires h.List? && i <= |h.objects| && Traceable(h, cur.d)
    decreases h, 0, |h.objects| - i
    ensures !res.hit ==> res.ray == cur && res.rec == rec
    ensures hitAny ==> res.hit
    ensures res.hit ==> (hitAny && res.ray == cur && res.rec == rec) || Narrowed(cur, res.ray, res.rec.t)
  {
    if i == |h.objects| then HitResult(hitAny, cur, rec)
    else
      var o := Trace(h.objects[i], cur, tempRec, sqrt);
      if o.hit then
        var res := TraceList(h, i + 1, o.ray.(tMax := Fin(o.rec.t)), o.rec, o.rec, true, sqrt);
        NarrowedTransitive(cur, o.ray, o.rec.t, res.ray, res.rec.t);
        res
      else
        TraceList(h, i + 1, o.ray, o.rec, rec, hitAny, sqrt)
  }

  /** The virtual dispatch of hit(r, rec). */
  method HitAny(h: Hittable, r: Ray, rec: SurfaceInteraction, sqrt: real -> real)
    returns (hit: bool, ray: Ray, out: SurfaceInteraction)
    requires Traceable(h, r.d)
    decreases h, 1
    ensures HitResult(hit, ray, out) == Trace(h, r, rec, sqrt)
  {
    match h
    case Sphere(s) =>
      hit, ray, out := SphereHit(s, r, rec, sqrt);
    case List(_) =>
      hit, ray, out := HitList(h, r, rec, sqrt);
    case Bvh(_, _, _, _) =>
      hit, ray, out := HitBvh(h, r, rec, sqrt);
  }

  /**
   * HittableList::hit: each object is tested against the ray shrunk by the
   * hits before it; on a hit tMax becomes the hit's t and rec takes a copy
   * of the scratch record.
   */
  method HitList(h: Hittable, r: Ray, rec: SurfaceInteraction, sqrt: real -> real)
    returns (hit: bool, ray: Ray, out: SurfaceInteraction)
    requires h.List? && Traceable(h, r.d)
    decreases h, 0
    ensures HitResult(hit, ray, out) == Trace(h, r, rec, sqrt)
  {
    var tempRec := EmptyInteraction;
    hit, ray, out := false, r, rec;
    for i := 0 to |h.objects|
      invariant ray.d == r.d
      invariant TraceList(h, i, ray, tempRec, out, hit, sqrt) == TraceList(h, 0, r, EmptyInteraction, rec, false, sqrt)
    {
      var objHit, objRay, objRec := HitAny(h.objects[i], ray, tempRec, sqrt);
      ray, tempRec := objRay, objRec;
      if objHit {
        hit := true;
        ray := ray.(tMax := Fin(tempRec.t));
        out := tempRec;
      }
    }
  }

  /**
   * BVHNode::hit: the box test on the ray's current interval, then the
   * leaf's only child, or both children nearer-first along the split axis.
   */
  method HitBvh(h: Hittable, r: Ray, rec: SurfaceInteraction, sqrt: real -> real)
    returns (hit: bool, ray: Ray, out: SurfaceInteraction)
    requires h.Bvh? && Traceable(h, r.d)
    decreases h, 0
    ensures HitResult(hit, ray, out) == Trace(h, r, rec, sqrt)
  {
    var boxHit := Intersect(h.box, r, r.tMin, r.tMax);
    if !boxHit {
      return false, r, rec;
    }
    if h.right.None? {
      hit, ray, out := HitAny(h.left, r, rec, sqrt);
      return;
    }
    var dirNeg := Comp(r.d, h.splitAxis) < 0.0;
    var first := if dirNeg then h.right.value else h.left;
    var second := if dirNeg then h.left else h.right.value;
    var hitAny := false;
    var hit1, ray1, rec1 := HitAny(first, r, rec, sqrt);
    if hit1 {
      hitAny := true;
    }
    var hit2, ray2, rec2 := HitAny(second, ray1, rec1, sqrt);
    if hit2 {
      hitAny := true;
    }
    return hitAny, ray2, rec2;
  }

  /**
   * A failed box test reports a miss, and then no point strictly inside the
   * box lies strictly inside the ray's interval: pruning loses nothing
   * there.
   */
  lemma BvhPruneSound(h: Hittable, r: Ray, rec: SurfaceInteraction, sqrt: real -> real)
    requires h.Bvh? && Traceable(h, r.d) && !SlabHit(h.box, r, r.tMin, r.tMax)
    ensures !Trace(h, r, rec, sqrt).hit && Trace(h, r, rec, sqrt).rec == rec
    ensures forall t :: r.tMin < t && Below(t, r.tMax) ==> !StrictlyInside(h.box, At(r, t))
  {
    SlabHitIff(h.box, r, r.tMin, r.tMax);
  }

  /** An internal node whose box test passes reports a hit iff one of its children does. */
  lemma BvhHitIffChild(h: Hittable, r: Ray, rec: SurfaceInteraction, sqrt: real -> real)
    requires h.Bvh? && h.right.Some? && Traceable(h, r.d) && SlabHit(h.box, r, r.tMin, r.tMax)
    ensures var first := if Comp(r.d, h.splitAxis) < 0.0 then h.right.value else h.left;
      var second := if Comp(r.d, h.splitAxis) < 0.0 then h.left else h.right.value;
      var a := Trace(first, r, rec, sqrt);
      Trace(h, r, rec, sqrt).hit <==> a.hit || Trace(second, a.ray, a.rec, sqrt).hit
  {
  }

  // ---------------------------------------------------------------------
  // Closest hit over spheres.

  /** The smaller of two optional parameters; on a tie the second one. */
  function Nearer(a: Option<real>, b: Option<real>): (m: Option<real>)
    ensures m.Some? <==> a.Some? || b.Some?
    ensures m.Some? ==> (m == a || m == b)
    ensures a.Some? ==> m.Some? && m.value <= a.value
    ensures b.Some? ==> m.Some? && m.value <= b.value
  {
    if a.None? then b
    else if b.None? then a
    else if b.value <= a.value then b
    else a
  }

  /** Every object is a sphere of non-zero radius. */
  predicate AllSpheres(objs: seq<Hittable>)
  {
    forall i :: 0 <= i < |objs| ==> objs[i].Sphere? && objs[i].shape.radius != 0.0
  }

  /** The nearest root over the first n spheres, each tested against the unshrunk ray r. */
  function NearestRoot(objs: seq<Hittable>, r: Ray, sqrt: real -> real, n: nat): (m: Option<real>)
    requires AllSpheres(objs) && n <= |objs|
    ensures m.Some? ==> exists j :: 0 <= j < n && SphereRoot(objs[j].shape, r, sqrt) == m
    ensures forall j :: 0 <= j < n && SphereRoot(objs[j].shape, r, sqrt).Some? ==>
      m.Some? && m.value <= SphereRoot(objs[j].shape, r, sqrt).value
  {
    if n == 0 then None
    else Nearer(NearestRoot(objs, r, sqrt, n - 1), SphereRoot(objs[n - 1].shape, r, sqrt))
  }

  /** One sphere test of the list loop, in terms of the nearest root m over the spheres before it. */
  lemma SphereStep(s: SphereShape, cur: Ray, tempRec: SurfaceInteraction, rec: SurfaceInteraction,
                   hitAny: bool, r: Ray, m: Option<real>, sqrt: real -> real)
    requires IsSqrt(sqrt) && s.radius != 0.0
    requires hitAny <==> m.Some?
    requires hitAny ==> rec.t == m.value && AtMost(m.value, r.tMax)
    requires cur == if hitAny then r.(tMax := Fin(rec.t)) else r
    ensures var o := SphereTrace(s, cur, tempRec, sqrt);
      var m' := Nearer(m, SphereRoot(s, r, sqrt));
      (o.hit ==> m'.Some? && o.rec.t == m'.value && o.ray == r.(tMax := Fin(o.rec.t))) &&
      (!o.hit ==> m' == m && o.ray == cur)
  {
    if hitAny {
      SphereRootShrink(s, r, rec.t, sqrt);
    }
    var o := SphereTrace(s, cur, tempRec, sqrt);
    if o.hit {
      assert o.rec.t == SphereRoot(s, cur, sqrt).value;
    }
  }

  /**
   * The list loop's state after i spheres: a hit so far iff some of them
   * has a root, rec.t the nearest such root and tMax shrunk to it.
   */
  ghost predicate ListState(h: Hittable, i: nat, cur: Ray, rec: SurfaceInteraction, hitAny: bool, r: Ray, sqrt: real -> real)
    requires h.List? && AllSpheres(h.objects) && i <= |h.objects|
  {
    (hitAny <==> NearestRoot(h.objects, r, sqrt, i).Some?) &&
    (hitAny ==> rec.t == NearestRoot(h.objects, r, sqrt, i).value) &&
    cur == if hitAny then r.(tMax := Fin(rec.t)) else r
  }

  /** Testing sphere i moves the loop's state from i spheres to i + 1. */
  lemma ListStateStep(h: Hittable, i: nat, cur: Ray, tempRec: SurfaceInteraction,
                      rec: SurfaceInteraction, hitAny: bool, r: Ray, sqrt: real -> real)
    requires IsSqrt(sqrt) && h.List? && AllSpheres(h.objects) && i < |h.objects|
    requires ListState(h, i, cur, rec, hitAny, r, sqrt)
    ensures Traceable(h.objects[i], cur.d)
    ensures var o := Trace(h.objects[i], cur, tempRec, sqrt);
      if o.hit then ListState(h, i + 1, o.ray.(tMax := Fin(o.rec.t)), o.rec, true, r, sqrt)
      else ListState(h, i + 1, o.ray, rec, hitAny, r, sqrt)
  {
    var s := h.objects[i].shape;
    var m := NearestRoot(h.objects, r, sqrt, i);
    if hitAny {
      var j :| 0 <= j < i && SphereRoot(h.objects[j].shape, r, sqrt) == m;
    }
    SphereStep(s, cur, tempRec, rec, hitAny, r, m, sqrt);
    assert Trace(h.objects[i], cur, tempRec, sqrt) == SphereTrace(s, cur, tempRec, sqrt);
    assert NearestRoot(h.objects, r, sqrt, i + 1) == Nearer(m, SphereRoot(s, r, sqrt));
  }

  /** A hit is reported iff there is a nearest root m, and then the record's t is m. */
  ghost predicate Reports(res: HitResult, m: Option<real>)
  {
    (res.hit <==> m.Some?) && (res.hit ==> res.rec.t == m.value)
  }

  /** The list loop over spheres keeps tMax and rec.t at the nearest root seen so far. */
  lemma {:induction false} TraceListSpheres(h: Hittable, i: nat, cur: Ray, tempRec: SurfaceInteraction,
                                            rec: SurfaceInteraction, hitAny: bool, r: Ray, sqrt: real -> real)
    requires IsSqrt(sqrt) && h.List? && AllSpheres(h.objects) && i <= |h.objects|
    requires ListState(h, i, cur, rec, hitAny, r, sqrt)
    decreases |h.objects| - i, 1
    ensures Traceable(h, cur.d)
    ensures Reports(TraceList(h, i, cur, tempRec, rec, hitAny, sqrt), NearestRoot(h.objects, r, sqrt, |h.objects|))
  {
    assert cur.d == r.d;
    if i == |h.objects| {
      assert TraceList(h, i, cur, tempRec, rec, hitAny, sqrt) == HitResult(hitAny, cur, rec);
    } else {
      TraceListSpheresStep(h, i, cur, tempRec, rec, hitAny, r, sqrt);
    }
  }

  /** The inductive step of TraceListSpheres: test sphere i, then the rest of the list. */
  lemma {:induction false} TraceListSpheresStep(h: Hittable, i: nat, cur: Ray, tempRec: SurfaceInteraction,
                                                rec: SurfaceInteraction, hitAny: bool, r: Ray, sqrt: real -> real)
    requires IsSqrt(sqrt) && h.List? && AllSpheres(h.objects) && i < |h.objects|
    requires ListState(h, i, cur, rec, hitAny, r, sqrt) && Traceable(h, cur.d)
    decreases |h.objects| - i, 0
    ensures Reports(TraceList(h, i, cur, tempRec, rec, hitAny, sqrt), NearestRoot(h.objects, r, sqrt, |h.objects|))
  {
    var res := TraceList(h, i, cur, tempRec, rec, hitAny, sqrt);
    ListStateStep(h, i, cur, tempRec, rec, hitAny, r, sqrt);
    TraceListUnfold(h, i, cur, tempRec, rec, hitAny, sqrt);
    var o := Trace(h.objects[i], cur, tempRec, sqrt);
    if o.hit {
      TraceListSpheres(h, i + 1, o.ray.(tMax := Fin(o.rec.t)), o.rec, o.rec, true, r, sqrt);
    } else {
      TraceListSpheres(h, i + 1, o.ray, o.rec, rec, hitAny, r, sqrt);
    }
  }

  /** One iteration of the list loop. */
  lemma TraceListUnfold(h: Hittable, i: nat, cur: Ray, tempRec: SurfaceInteraction, rec: SurfaceInteraction,
                        hitAny: bool, sqrt: real -> real)
    requires h.List? && i < |h.objects| && Traceable(h, cur.d)
    ensures var o := Trace(h.objects[i], cur, tempRec, sqrt);
      TraceList(h, i, cur, tempRec, rec, hitAny, sqrt) ==
        if o.hit then TraceList(h, i + 1, o.ray.(tMax := Fin(o.rec.t)), o.rec, o.rec, true, sqrt)
        else TraceList(h, i + 1, o.ray, o.rec, rec, hitAny, sqrt)
  {
  }

  /**
   * The closest-hit promise of a list of spheres: it reports a hit iff some
   * sphere has a root in [tMin, tMax], and the record's t is the smallest
   * such root.  Combined with SphereRootIsNearest this is the nearest
   * surface point along the ray.
   */
  lemma ListClosestHit(objs: seq<Hittable>, r: Ray, rec: SurfaceInteraction, sqrt: real -> real)
    requires IsSqrt(sqrt) && AllSpheres(objs)
    ensures Traceable(List(objs), r.d)
    ensures var res := Trace(List(objs), r, rec, sqrt);
      var m := NearestRoot(objs, r, sqrt, |objs|);
      (res.hit <==> m.Some?) && (res.hit ==> res.rec.t == m.value) && (!res.hit ==> res.rec == rec)
  {
    TraceListSpheres(List(objs), 0, r, EmptyInteraction, rec, false, r, sqrt);
  }

  /**
   * The nearest surface point: with a non-zero direction, every point of
   * every sphere whose parameter lies in range is no nearer than the
   * reported hit, and the reported t is on one of the spheres.
   */
  lemma ListNearestSurface(objs: seq<Hittable>, r: Ray, rec: SurfaceInteraction, sqrt: real -> real, j: int, t: real)
    requires IsSqrt(sqrt) && AllSpheres(objs) && Dot(r.d, r.d) != 0.0
    requires 0 <= j < |objs| && InRange(t, r) && OnSphere(objs[j].shape, At(r, t))
    ensures Traceable(List(objs), r.d)
    ensures Trace(List(objs), r, rec, sqrt).hit && Trace(List(objs), r, rec, sqrt).rec.t <= t
  {
    ListClosestHit(objs, r, rec, sqrt);
    SphereRootIsNearest(objs[j].shape, r, sqrt, t);
  }

  /**
   * A node whose two children are spheres ends, whichever child it visits
   * first, with the nearer of the two roots in the record.
   */
  lemma BvhPairNearest(h: Hittable, r: Ray, rec: SurfaceInteraction, sqrt: real -> real)
    requires IsSqrt(sqrt) && h.Bvh? && h.right.Some? && Traceable(h, r.d)
    requires h.left.Sphere? && h.right.value.Sphere?
    requires SlabHit(h.box, r, r.tMin, r.tMax)
    ensures var res := Trace(h, r, rec, sqrt);
      var m := Nearer(SphereRoot(h.left.shape, r, sqrt), SphereRoot(h.right.value.shape, r, sqrt));
      (res.hit <==> m.Some?) && (res.hit ==> res.rec.t == m.value)
  {
    var dirNeg := Comp(r.d, h.splitAxis) < 0.0;
    var first := if dirNeg then h.right.value else h.left;
    var second := if dirNeg then h.left else h.right.value;
    var a := Trace(first, r, rec, sqrt);
    assert a == SphereTrace(first.shape, r, rec, sqrt);
    if a.hit {
      assert a.rec.t == SphereRoot(first.shape, r, sqrt).value;
      SphereRootShrink(second.shape, r, a.rec.t, sqrt);
    }
    var b := Trace(second, a.ray, a.rec, sqrt);
    assert b == SphereTrace(second.shape, a.ray, a.rec, sqrt);
    if b.hit {
      assert b.rec.t == SphereRoot(second.shape, a.ray, sqrt).value;
    }
  }

  // ---------------------------------------------------------------------
  // The leaves of a BVH and the closest hit through a tree of spheres.

  /** The objects a node holds, its left child's first; anything that is not a node is its own leaf. */
  function Leaves(h: Hittable): seq<Hittable>
  {
    match h
    case Bvh(left, right, _, _) => Leaves(left) + (if right.Some? then Leaves(right.value) else [])
    case _ => [h]
  }

  /** The leaves of each object of s in turn. */
  function LeavesOf(s: seq<Hittable>): seq<Hittable>
  {
    if |s| == 0 then [] else Leaves(s[0]) + LeavesOf(s[1..])
  }

  lemma {:induction false} LeavesOfAppend(a: seq<Hittable>, b: seq<Hittable>)
    ensures LeavesOf(a + b) == LeavesOf(a) + LeavesOf(b)
  {
    if |a| == 0 {
      assert a + b == b;
    } else {
      assert (a + b)[1..] == a[1..] + b;
      LeavesOfAppend(a[1..], b);
    }
  }

  /**
   * Every node's box is the union of its two children's bounds (of its only
   * child's, for a single child), all the way down: the box BVHNode's
   * constructor stores.
   */
  predicate WellBuilt(h: Hittable)
  {
    match h
    case Bvh(left, right, box, _) =>
      box == (if right.Some? then Unite(Bounds(left), Bounds(right.value)) else Bounds(left)) &&
      WellBuilt(left) && (right.Some? ==> WellBuilt(right.value))
    case _ => true
  }

  /** In a well-built tree the bounds of a node enclose the bounds of each of its leaves. */
  lemma {:induction false} WellBuiltEncloses(h: Hittable, x: Hittable)
    requires WellBuilt(h) && x in Leaves(h)
    ensures Encloses(Bounds(h), Bounds(x))
  {
    if h.Bvh? {
      if x in Leaves(h.left) {
        WellBuiltEncloses(h.left, x);
        EnclosesTransitive(h.box, Bounds(h.left), Bounds(x));
      } else {
        WellBuiltEncloses(h.right.value, x);
        EnclosesTransitive(h.box, Bounds(h.right.value), Bounds(x));
      }
    }
  }

  lemma AllSpheresAppend(a: seq<Hittable>, b: seq<Hittable>)
    ensures AllSpheres(a + b) <==> AllSpheres(a) && AllSpheres(b)
  {
    if AllSpheres(a) && AllSpheres(b) {
      forall i | 0 <= i < |a + b|
        ensures (a + b)[i].Sphere? && (a + b)[i].shape.radius != 0.0
      {
        if i < |a| {
          assert (a + b)[i] == a[i];
        } else {
          assert (a + b)[i] == b[i - |a|];
        }
      }
    }
    if AllSpheres(a + b) {
      forall i | 0 <= i < |a|
        ensures a[i].Sphere? && a[i].shape.radius != 0.0
      {
        assert (a + b)[i] == a[i];
      }
      forall i | 0 <= i < |b|
        ensures b[i].Sphere? && b[i].shape.radius != 0.0
      {
        assert (a + b)[|a| + i] == b[i];
      }
    }
  }

  /** The children of a node whose leaves are spheres have only spheres as leaves. */
  lemma ChildrenAllSpheres(h: Hittable)
    requires h.Bvh? && AllSpheres(Leaves(h))
    ensures AllSpheres(Leaves(h.left)) && (h.right.Some? ==> AllSpheres(Leaves(h.right.value)))
  {
    AllSpheresAppend(Leaves(h.left), if h.right.Some? then Leaves(h.right.value) else []);
  }

  /** The nearest root over a tree of spheres, folded the way the tree is shaped. */
  function TreeRoot(h: Hittable, r: Ray, sqrt: real -> real): Option<real>
    requires AllSpheres(Leaves(h))
  {
    match h
    case Sphere(s) => SphereRoot(s, r, sqrt)
    case List(_) => None
    case Bvh(left, right, _, _) =>
      ChildrenAllSpheres(h);
      Nearer(TreeRoot(left, r, sqrt), if right.Some? then TreeRoot(right.value, r, sqrt) else None)
  }

  /** When the tree has a nearest root, some leaf sphere has exactly that root. */
  lemma {:induction false} TreeRootAttained(h: Hittable, r: Ray, sqrt: real -> real)
    requires AllSpheres(Leaves(h))
    ensures TreeRoot(h, r, sqrt).Some? ==>
      exists s :: Sphere(s) in Leaves(h) && SphereRoot(s, r, sqrt) == TreeRoot(h, r, sqrt)
  {
    var m := TreeRoot(h, r, sqrt);
    if h.Bvh? {
      ChildrenAllSpheres(h);
      TreeRootAttained(h.left, r, sqrt);
      if m.Some? && m == TreeRoot(h.left, r, sqrt) {
        var s :| Sphere(s) in Leaves(h.left) && SphereRoot(s, r, sqrt) == m;
        assert Sphere(s) in Leaves(h);
      } else if m.Some? {
        TreeRootAttained(h.right.value, r, sqrt);
        var s :| Sphere(s) in Leaves(h.right.value) && SphereRoot(s, r, sqrt) == m;
        assert Sphere(s) in Leaves(h);
      }
    } else {
      assert Leaves(h)[0] == h;
      assert Sphere(h.shape) in Leaves(h);
    }
  }

  /**
   * m is a nearest root over objs: some sphere among them has m as its
   * root, and m is no farther than any sphere's root.
   */
  ghost predicate IsNearestRoot(objs: seq<Hittable>, r: Ray, sqrt: real -> real, m: Option<real>)
  {
    (m.Some? ==> exists s :: Sphere(s) in objs && SphereRoot(s, r, sqrt) == m) &&
    (forall s :: Sphere(s) in objs && SphereRoot(s, r, sqrt).Some? ==>
      m.Some? && m.value <= SphereRoot(s, r, sqrt).value)
  }

  /** There is only one nearest root. */
  lemma IsNearestRootUnique(objs: seq<Hittable>, r: Ray, sqrt: real -> real, m: Option<real>, n: Option<real>)
    requires IsNearestRoot(objs, r, sqrt, m) && IsNearestRoot(objs, r, sqrt, n)
    ensures m == n
  {
    if m.Some? {
      var s :| Sphere(s) in objs && SphereRoot(s, r, sqrt) == m;
    }
    if n.Some? {
      var s :| Sphere(s) in objs && SphereRoot(s, r, sqrt) == n;
    }
  }

  /** NearestRoot over the whole of objs is the nearest root in the sense of IsNearestRoot. */
  lemma NearestRootIsNearest(objs: seq<Hittable>, r: Ray, sqrt: real -> real)
    requires AllSpheres(objs)
    ensures IsNearestRoot(objs, r, sqrt, NearestRoot(objs, r, sqrt, |objs|))
  {
    forall s | Sphere(s) in objs && SphereRoot(s, r, sqrt).Some?
      ensures NearestRoot(objs, r, sqrt, |objs|).Some?
      ensures NearestRoot(objs, r, sqrt, |objs|).value <= SphereRoot(s, r, sqrt).value
    {
      NearestBelowMember(objs, r, sqrt, s);
    }
    if NearestRoot(objs, r, sqrt, |objs|).Some? {
      var s := NearestIsMember(objs, r, sqrt);
    }
  }

  /** The nearest root over objs, when there is one, is the root of a sphere among them. */
  lemma NearestIsMember(objs: seq<Hittable>, r: Ray, sqrt: real -> real) returns (s: SphereShape)
    requires AllSpheres(objs) && NearestRoot(objs, r, sqrt, |objs|).Some?
    ensures Sphere(s) in objs && SphereRoot(s, r, sqrt) == NearestRoot(objs, r, sqrt, |objs|)
  {
    var j :| 0 <= j < |objs| && SphereRoot(objs[j].shape, r, sqrt) == NearestRoot(objs, r, sqrt, |objs|);
    s := objs[j].shape;
  }

  /** The nearest root over objs is no farther than the root of a sphere among them. */
  lemma NearestBelowMember(objs: seq<Hittable>, r: Ray, sqrt: real -> real, s: SphereShape)
    requires AllSpheres(objs) && Sphere(s) in objs && SphereRoot(s, r, sqrt).Some?
    ensures NearestRoot(objs, r, sqrt, |objs|).Some?
    ensures NearestRoot(objs, r, sqrt, |objs|).value <= SphereRoot(s, r, sqrt).value
  {
    var j :| 0 <= j < |objs| && objs[j] == Sphere(s);
    assert SphereRoot(objs[j].shape, r, sqrt) == SphereRoot(s, r, sqrt);
  }

  /**
   * The tree-shaped fold is the nearest root over the leaves in order, the
   * quantity a flat list of the same spheres reports.
   */
  lemma TreeRootIsNearest(h: Hittable, r: Ray, sqrt: real -> real)
    requires AllSpheres(Leaves(h))
    ensures TreeRoot(h, r, sqrt) == NearestRoot(Leaves(h), r, sqrt, |Leaves(h)|)
  {
    TreeRootAttained(h, r, sqrt);
    forall s | Sphere(s) in Leaves(h) && SphereRoot(s, r, sqrt).Some?
      ensures TreeRoot(h, r, sqrt).Some? && TreeRoot(h, r, sqrt).value <= SphereRoot(s, r, sqrt).value
    {
      TreeRootBelowLeaf(h, r, sqrt, s);
    }
    NearestRootIsNearest(Leaves(h), r, sqrt);
    IsNearestRootUnique(Leaves(h), r, sqrt, TreeRoot(h, r, sqrt), NearestRoot(Leaves(h), r, sqrt, |Leaves(h)|));
  }

  /** Shrinking tMax keeps the tree's nearest root if it is still in range, else none is left. */
  lemma {:induction false} TreeRootShrink(h: Hittable, r: Ray, tMax: real, sqrt: real -> real)
    requires IsSqrt(sqrt) && AllSpheres(Leaves(h)) && AtMost(tMax, r.tMax)
    ensures var m := TreeRoot(h, r, sqrt);
      TreeRoot(h, r.(tMax := Fin(tMax)), sqrt) == if m.Some? && m.value <= tMax then m else None
  {
    if h.Bvh? {
      ChildrenAllSpheres(h);
      TreeRootShrink(h.left, r, tMax, sqrt);
      if h.right.Some? {
        TreeRootShrink(h.right.value, r, tMax, sqrt);
      }
    } else {
      assert Leaves(h)[0] == h;
      SphereRootShrink(h.shape, r, tMax, sqrt);
    }
  }

  /** The tree's nearest root is no farther than the root of any of its leaves. */
  lemma {:induction false} TreeRootBelowLeaf(h: Hittable, r: Ray, sqrt: real -> real, s: SphereShape)
    requires AllSpheres(Leaves(h)) && Sphere(s) in Leaves(h) && SphereRoot(s, r, sqrt).Some?
    ensures TreeRoot(h, r, sqrt).Some? && TreeRoot(h, r, sqrt).value <= SphereRoot(s, r, sqrt).value
  {
    if h.Bvh? {
      ChildrenAllSpheres(h);
      if Sphere(s) in Leaves(h.left) {
        TreeRootBelowLeaf(h.left, r, sqrt, s);
      } else {
        TreeRootBelowLeaf(h.right.value, r, sqrt, s);
      }
    }
  }

  /** A hit through a tree of spheres is never nearer than the tree's nearest root. */
  lemma {:induction false} TraceSound(h: Hittable, cur: Ray, rec: SurfaceInteraction, sqrt: real -> real)
    requires IsSqrt(sqrt) && AllSpheres(Leaves(h)) && Traceable(h, cur.d)
    decreases h, 1
    ensures var res := Trace(h, cur, rec, sqrt);
      res.hit ==> TreeRoot(h, cur, sqrt).Some? && TreeRoot(h, cur, sqrt).value <= res.rec.t
  {
    if h.Bvh? {
      ChildrenAllSpheres(h);
      if SlabHit(h.box, cur, cur.tMin, cur.tMax) {
        if h.right.None? {
          TraceSound(h.left, cur, rec, sqrt);
        } else if Comp(cur.d, h.splitAxis) < 0.0 {
          PairSound(h, h.right.value, h.left, cur, rec, sqrt);
        } else {
          PairSound(h, h.left, h.right.value, cur, rec, sqrt);
        }
      }
    } else {
      assert Leaves(h)[0] == h;
      var res := SphereTrace(h.shape, cur, rec, sqrt);
      if res.hit {
        assert res.rec.t == SphereRoot(h.shape, cur, sqrt).value;
      }
    }
  }

  /** TraceSound for an internal node visiting first and then second. */
  lemma {:induction false} PairSound(h: Hittable, first: Hittable, second: Hittable, cur: Ray,
                                     rec: SurfaceInteraction, sqrt: real -> real)
    requires IsSqrt(sqrt) && h.Bvh? && h.right.Some?
    requires (first == h.left && second == h.right.value) || (first == h.right.value && second == h.left)
    requires AllSpheres(Leaves(h)) && Traceable(h, cur.d)
    decreases h, 0
    ensures var res := TracePair(h, first, second, cur, rec, sqrt);
      res.hit ==> TreeRoot(h, cur, sqrt).Some? && TreeRoot(h, cur, sqrt).value <= res.rec.t
  {
    ChildrenAllSpheres(h);
    var a := Trace(first, cur, rec, sqrt);
    TraceSound(first, cur, rec, sqrt);
    TraceSound(second, a.ray, a.rec, sqrt);
    if a.hit {
      TreeRootShrink(second, cur, a.rec.t, sqrt);
    }
  }

  /**
   * A tree of spheres reports its nearest root t whenever t lies strictly
   * after tMin, strictly before tMax, and on a leaf sphere s whose bounds
   * hold the point strictly inside: then no box on the way to s fails the
   * slab test.
   */
  lemma {:induction false} TraceComplete(h: Hittable, cur: Ray, rec: SurfaceInteraction, sqrt: real -> real,
                                         s: SphereShape, t: real)
    requires IsSqrt(sqrt) && AllSpheres(Leaves(h)) && WellBuilt(h) && Traceable(h, cur.d)
    requires Sphere(s) in Leaves(h) && SphereRoot(s, cur, sqrt) == Some(t) && TreeRoot(h, cur, sqrt) == Some(t)
    requires cur.tMin < t && Below(t, cur.tMax) && StrictlyInside(SphereBounds(s), At(cur, t))
    decreases h, 1
    ensures Trace(h, cur, rec, sqrt).hit && Trace(h, cur, rec, sqrt).rec.t == t
  {
    if h.Bvh? {
      ChildrenAllSpheres(h);
      WellBuiltEncloses(h, Sphere(s));
      assert cur.tMin < t && Below(t, cur.tMax) && StrictlyInside(h.box, At(cur, t));
      SlabHitIff(h.box, cur, cur.tMin, cur.tMax);
      if h.right.None? {
        assert Leaves(h) == Leaves(h.left) + [];
        TraceComplete(h.left, cur, rec, sqrt, s, t);
      } else {
        var dirNeg := Comp(cur.d, h.splitAxis) < 0.0;
        var first := if dirNeg then h.right.value else h.left;
        var second := if dirNeg then h.left else h.right.value;
        if Sphere(s) in Leaves(first) {
          NearestInFirst(h, first, second, cur, rec, sqrt, s, t);
        } else {
          NearestInSecond(h, first, second, cur, rec, sqrt, s, t);
        }
      }
    } else {
      assert Leaves(h) == [h];
      var res := SphereTrace(s, cur, rec, sqrt);
      assert res.rec.t == SphereRoot(s, cur, sqrt).value;
    }
  }

  /** TraceComplete for an internal node whose first child holds the nearest sphere s. */
  lemma {:induction false} NearestInFirst(h: Hittable, first: Hittable, second: Hittable, cur: Ray,
                                          rec: SurfaceInteraction, sqrt: real -> real, s: SphereShape, t: real)
    requires IsSqrt(sqrt) && h.Bvh? && h.right.Some?
    requires (first == h.left && second == h.right.value) || (first == h.right.value && second == h.left)
    requires AllSpheres(Leaves(h)) && WellBuilt(h) && Traceable(h, cur.d)
    requires Sphere(s) in Leaves(first) && SphereRoot(s, cur, sqrt) == Some(t) && TreeRoot(h, cur, sqrt) == Some(t)
    requires cur.tMin < t && Below(t, cur.tMax) && StrictlyInside(SphereBounds(s), At(cur, t))
    decreases h, 0
    ensures TracePair(h, first, second, cur, rec, sqrt).hit && TracePair(h, first, second, cur, rec, sqrt).rec.t == t
  {
    ChildrenAllSpheres(h);
    var a := Trace(first, cur, rec, sqrt);
    TreeRootBelowLeaf(first, cur, sqrt, s);
    TraceComplete(first, cur, rec, sqrt, s, t);
    TraceSound(second, a.ray, a.rec, sqrt);
    TreeRootShrink(second, cur, t, sqrt);
  }

  /** TraceComplete for an internal node whose second child holds the nearest sphere s. */
  lemma {:induction false} NearestInSecond(h: Hittable, first: Hittable, second: Hittable, cur: Ray,
                                           rec: SurfaceInteraction, sqrt: real -> real, s: SphereShape, t: real)
    requires IsSqrt(sqrt) && h.Bvh? && h.right.Some?
    requires (first == h.left && second == h.right.value) || (first == h.right.value && second == h.left)
    requires AllSpheres(Leaves(h)) && WellBuilt(h) && Traceable(h, cur.d)
    requires Sphere(s) in Leaves(second) && SphereRoot(s, cur, sqrt) == Some(t) && TreeRoot(h, cur, sqrt) == Some(t)
    requires cur.tMin < t && Below(t, cur.tMax) && StrictlyInside(SphereBounds(s), At(cur, t))
    decreases h, 0
    ensures TracePair(h, first, second, cur, rec, sqrt).hit && TracePair(h, first, second, cur, rec, sqrt).rec.t == t
  {
    ChildrenAllSpheres(h);
    var a := Trace(first, cur, rec, sqrt);
    TraceSound(first, cur, rec, sqrt);
    TreeRootBelowLeaf(second, cur, sqrt, s);
    if !a.hit {
      TraceComplete(second, cur, rec, sqrt, s, t);
    } else {
      TraceSound(second, a.ray, a.rec, sqrt);
      TreeRootShrink(second, cur, a.rec.t, sqrt);
      if t < a.rec.t {
        SphereRootShrink(s, cur, a.rec.t, sqrt);
        assert At(a.ray, t) == At(cur, t);
        TraceComplete(second, a.ray, a.rec, sqrt, s, t);
      }
    }
  }

  /**
   * BVHNode::hit over spheres never reports a hit nearer than the nearest
   * root among its leaves: a hit means some leaf has a root in range and
   * the record's t is no smaller than the least of them.
   */
  lemma BvhHitSound(h: Hittable, r: Ray, rec: SurfaceInteraction, sqrt: real -> real)
    requires IsSqrt(sqrt) && AllSpheres(Leaves(h)) && Traceable(h, r.d)
    ensures var res := Trace(h, r, rec, sqrt);
      var m := NearestRoot(Leaves(h), r, sqrt, |Leaves(h)|);
      res.hit ==> m.Some? && m.value <= res.rec.t
  {
    TraceSound(h, r, rec, sqrt);
    TreeRootIsNearest(h, r, sqrt);
  }

  /**
   * The closest-hit promise of a well-built BVH over spheres: when the
   * nearest leaf root t lies strictly inside (tMin, tMax) and its point
   * strictly inside the bounds of a sphere it lies on, the tree reports a
   * hit with exactly that t.
   */
  lemma BvhClosestHit(h: Hittable, r: Ray, rec: SurfaceInteraction, sqrt: real -> real, s: SphereShape, t: real)
    requires IsSqrt(sqrt) && AllSpheres(Leaves(h)) && WellBuilt(h) && Traceable(h, r.d)
    requires NearestRoot(Leaves(h), r, sqrt, |Leaves(h)|) == Some(t)
    requires Sphere(s) in Leaves(h) && SphereRoot(s, r, sqrt) == Some(t)
    requires r.tMin < t && Below(t, r.tMax) && StrictlyInside(SphereBounds(s), At(r, t))
    ensures Trace(h, r, rec, sqrt).hit && Trace(h, r, rec, sqrt).rec.t == t
  {
    TreeRootIsNearest(h, r, sqrt);
    TraceComplete(h, r, rec, sqrt, s, t);
  }

  /**
   * A BVH over spheres hits only where the flat list of its leaves hits,
   * and the list's t is never larger; with BvhClosestHit, both report the
   * same t in that lemma's position.
   */
  lemma BvhAgreesWithList(h: Hittable, r: Ray, rec: SurfaceInteraction, sqrt: real -> real)
    requires IsSqrt(sqrt) && AllSpheres(Leaves(h)) && Traceable(h, r.d)
    ensures Traceable(List(Leaves(h)), r.d)
    ensures var b := Trace(h, r, rec, sqrt);
      var l := Trace(List(Leaves(h)), r, rec, sqrt);
      b.hit ==> l.hit && l.rec.t <= b.rec.t
  {
    BvhHitSound(h, r, rec, sqrt);
    ListClosestHit(Leaves(h), r, rec, sqrt);
  }
}
