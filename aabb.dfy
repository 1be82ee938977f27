// Axis-aligned bounding boxes: the slab test against a ray interval, the
// union of two boxes, and the centre and extent used by the BVH builder.
module Aabb {
  import opened Types
  import opened Rays

  datatype AABB = AABB(min: Vec3, max: Vec3)

  /** The box spanning the origin only, reported for an empty list. */
  const ZeroBox: AABB := AABB(Black, Black)

  /** Every corner coordinate of inner lies within outer. */
  predicate Encloses(outer: AABB, inner: AABB)
  {
    outer.min.x <= inner.min.x && outer.min.y <= inner.min.y && outer.min.z <= inner.min.z &&
    inner.max.x <= outer.max.x && inner.max.y <= outer.max.y && inner.max.z <= outer.max.z
  }

  /** p lies in the closed box. */
  predicate Contains(b: AABB, p: Vec3)
  {
    b.min.x <= p.x <= b.max.x && b.min.y <= p.y <= b.max.y && b.min.z <= p.z <= b.max.z
  }

  /** p lies in the open interior of the box. */
  predicate StrictlyInside(b: AABB, p: Vec3)
  {
    b.min.x < p.x < b.max.x && b.min.y < p.y < b.max.y && b.min.z < p.z < b.max.z
  }

  /** The union box: component-wise min of the lower and max of the upper corners. */
  function Unite(a: AABB, b: AABB): (r: AABB)
    ensures Encloses(r, a) && Encloses(r, b)
    ensures forall c :: Encloses(c, a) && Encloses(c, b) ==> Encloses(c, r)
  {
    AABB(MinV(a.min, b.min), MaxV(a.max, b.max))
  }

  /** unite is commutative, associative and idempotent. */
  lemma UniteAlgebra(a: AABB, b: AABB, c: AABB)
    ensures Unite(a, b) == Unite(b, a)
    ensures Unite(Unite(a, b), c) == Unite(a, Unite(b, c))
    ensures Unite(a, a) == a
  {
  }

  /** Enclosure is transitive. */
  lemma EnclosesTransitive(a: AABB, b: AABB, c: AABB)
    requires Encloses(a, b) && Encloses(b, c)
    ensures Encloses(a, c)
  {
  }

  /** The midpoint (min + max) * 0.5. */
  function Center(b: AABB): Vec3
  {
    Scale(0.5, Add(b.min, b.max))
  }

  /** The edge lengths max - min. */
  function Extent(b: AABB): Vec3
  {
    Sub(b.max, b.min)
  }

  /** For a box with min <= max the centre lies inside and the extent is non-negative. */
  lemma CenterAndExtent(b: AABB)
    requires b.min.x <= b.max.x && b.min.y <= b.max.y && b.min.z <= b.max.z
    ensures Contains(b, Center(b))
    ensures Extent(b).x >= 0.0 && Extent(b).y >= 0.0 && Extent(b).z >= 0.0
    ensures Add(b.min, Extent(b)) == b.max
  {
  }

  /** No direction component is zero, so every 1/d[axis] is finite. */
  predicate NonZeroComponents(d: Vec3)
  {
    d.x != 0.0 && d.y != 0.0 && d.z != 0.0
  }

  /** Slab entry parameter on one axis: (min - o) / d, swapped with the exit when 1/d < 0. */
  function SlabNear(mn: real, mx: real, o: real, d: real): real
    requires d != 0.0
  {
    var invD := 1.0 / d;
    var t0 := (mn - o) * invD;
    var t1 := (mx - o) * invD;
    if invD < 0.0 then t1 else t0
  }

  /** Slab exit parameter on one axis. */
  function SlabFar(mn: real, mx: real, o: real, d: real): real
    requires d != 0.0
  {
    var invD := 1.0 / d;
    var t0 := (mn - o) * invD;
    var t1 := (mx - o) * invD;
    if invD < 0.0 then t0 else t1
  }

  function Near(b: AABB, r: Ray, axis: Axis): real
    requires NonZeroComponents(r.d)
  {
    SlabNear(Comp(b.min, axis), Comp(b.max, axis), Comp(r.o, axis), Comp(r.d, axis))
  }

  function Far(b: AABB, r: Ray, axis: Axis): real
    requires NonZeroComponents(r.d)
  {
    SlabFar(Comp(b.min, axis), Comp(b.max, axis), Comp(r.o, axis), Comp(r.d, axis))
  }

  /** The lower end of the running interval after the first k axes. */
  function RunLo(b: AABB, r: Ray, tMin: real, k: nat): real
    requires k <= 3 && NonZeroComponents(r.d)
  {
    if k == 0 then tMin else Max(RunLo(b, r, tMin, k - 1), Near(b, r, k - 1))
  }

  /** The upper end of the running interval after the first k axes. */
  function RunHi(b: AABB, r: Ray, tMax: Ext, k: nat): Ext
    requires k <= 3 && NonZeroComponents(r.d)
  {
    if k == 0 then tMax else Fin(MinExt(RunHi(b, r, tMax, k - 1), Far(b, r, k - 1)))
  }

  /** The slab test's verdict: the interval left after all three axes is non-empty. */
  predicate SlabHit(b: AABB, r: Ray, tMin: real, tMax: Ext)
    requires NonZeroComponents(r.d)
  {
    Below(RunLo(b, r, tMin, 3), RunHi(b, r, tMax, 3))
  }

  /**
   * The slab test, axis by axis, returning false as soon as the running
   * interval becomes empty.  tMin and tMax are local copies; the ray is a value.
   */
  method Intersect(b: AABB, r: Ray, tMin: real, tMax: Ext) returns (hit: bool)
    requires NonZeroComponents(r.d)
    ensures hit == SlabHit(b, r, tMin, tMax)
  {
    var lo := tMin;
    var hi := tMax;
    for axis := 0 to 3
      invariant lo == RunLo(b, r, tMin, axis)
      invariant hi == RunHi(b, r, tMax, axis)
      invariant axis > 0 ==> Below(lo, hi)
    {
      var t0, t1 := SlabEnds(b, r, axis);
      lo := Max(lo, t0);
      hi := Fin(MinExt(hi, t1));
      if hi.val <= lo {
        RunStaysEmpty(b, r, tMin, tMax, axis + 1);
        return false;
      }
    }
    return true;
  }

  /**
   * One axis of the slab test: t0 and t1 are where the ray crosses the
   * box's two planes, swapped when the direction is negative.
   */
  method SlabEnds(b: AABB, r: Ray, axis: Axis) returns (t0: real, t1: real)
    requires NonZeroComponents(r.d)
    ensures t0 == Near(b, r, axis) && t1 == Far(b, r, axis)
  {
    var mn, mx, o, d := Comp(b.min, axis), Comp(b.max, axis), Comp(r.o, axis), Comp(r.d, axis);
    var invD := 1.0 / d;
    t0 := (mn - o) * invD;
    t1 := (mx - o) * invD;
    if invD < 0.0 {
      t0, t1 := t1, t0;
    }
  }

  /** Once the running interval is empty it stays empty for the remaining axes. */
  lemma {:induction false} RunStaysEmpty(b: AABB, r: Ray, tMin: real, tMax: Ext, k: nat)
    requires 1 <= k <= 3 && NonZeroComponents(r.d)
    requires !Below(RunLo(b, r, tMin, k), RunHi(b, r, tMax, k))
    ensures !SlabHit(b, r, tMin, tMax)
    decreases 3 - k
  {
    if k < 3 {
      assert RunLo(b, r, tMin, k + 1) >= RunLo(b, r, tMin, k);
      assert RunHi(b, r, tMax, k + 1).val <= RunHi(b, r, tMax, k).val;
      RunStaysEmpty(b, r, tMin, tMax, k + 1);
    }
  }

  /** On one axis: the coordinate at t is strictly inside the slab iff t is strictly between entry and exit. */
  lemma SlabAxis(mn: real, mx: real, o: real, d: real, t: real)
    requires d != 0.0
    ensures (mn < o + t * d < mx) <==> (SlabNear(mn, mx, o, d) < t < SlabFar(mn, mx, o, d))
  {
    var invD := 1.0 / d;
    RecipScale(mn - o, t, d);
    RecipScale(mx - o, t, d);
    if d > 0.0 {
      assert invD > 0.0;
      SignOfProduct(mn - o - t * d, invD);
      SignOfProduct(mx - o - t * d, invD);
    } else {
      assert invD < 0.0 by {
        assert invD * (-d) == -1.0;
        SignOfProduct(invD, -d);
      }
      SignOfProduct(mn - o - t * d, -invD);
      SignOfProduct(mx - o - t * d, -invD);
      assert (mn - o - t * d) * (-invD) == -((mn - o - t * d) * invD);
      assert (mx - o - t * d) * (-invD) == -((mx - o - t * d) * invD);
    }
  }

  lemma RecipScale(a: real, t: real, d: real)
    requires d != 0.0
    ensures a * (1.0 / d) - t == (a - t * d) * (1.0 / d)
  {
    var i := 1.0 / d;
    assert d * i == 1.0;
    calc {
      (a - t * d) * i;
      a * i - t * (d * i);
      a * i - t;
    }
  }

  lemma SignOfProduct(x: real, k: real)
    requires k > 0.0
    ensures x > 0.0 <==> x * k > 0.0
    ensures x < 0.0 <==> x * k < 0.0
  {
    if x > 0.0 {
      assert x * k > 0.0;
    } else if x < 0.0 {
      assert (-x) * k > 0.0;
    }
  }

  /** t lies strictly inside the slab of every axis. */
  predicate InAllSlabs(b: AABB, r: Ray, t: real)
    requires NonZeroComponents(r.d)
  {
    Near(b, r, 0) < t < Far(b, r, 0) && Near(b, r, 1) < t < Far(b, r, 1) && Near(b, r, 2) < t < Far(b, r, 2)
  }

  /** The point at t is strictly inside the box iff t is strictly inside every axis' slab. */
  lemma InsideIffSlabs(b: AABB, r: Ray, t: real)
    requires NonZeroComponents(r.d)
    ensures StrictlyInside(b, At(r, t)) <==> InAllSlabs(b, r, t)
  {
    AxisSlab(b, r, t, 0);
    AxisSlab(b, r, t, 1);
    AxisSlab(b, r, t, 2);
  }

  /** SlabAxis for one axis of the box and the ray. */
  lemma AxisSlab(b: AABB, r: Ray, t: real, axis: Axis)
    requires NonZeroComponents(r.d)
    ensures (Comp(b.min, axis) < Comp(At(r, t), axis) < Comp(b.max, axis)) <==> (Near(b, r, axis) < t < Far(b, r, axis))
  {
    var mn, mx, o, d := Comp(b.min, axis), Comp(b.max, axis), Comp(r.o, axis), Comp(r.d, axis);
    assert Comp(At(r, t), axis) == o + t * d;
    SlabAxis(mn, mx, o, d, t);
  }

  /**
   * The geometric meaning of the slab test: it succeeds iff some parameter
   * t strictly inside (tMin, tMax) puts the ray strictly inside the box.
   * In particular an empty or zero-length interval always fails.
   */
  lemma SlabHitIff(b: AABB, r: Ray, tMin: real, tMax: Ext)
    requires NonZeroComponents(r.d)
    ensures SlabHit(b, r, tMin, tMax) <==>
      exists t :: tMin < t && Below(t, tMax) && StrictlyInside(b, At(r, t))
  {
    var lo := RunLo(b, r, tMin, 3);
    var hi := RunHi(b, r, tMax, 3);
    if SlabHit(b, r, tMin, tMax) {
      var t := (lo + hi.val) / 2.0;
      assert lo < t < hi.val;
      RunBounds(b, r, tMin, tMax, 3);
      InsideIffSlabs(b, r, t);
      assert Below(t, tMax) by {
        RunHiBelowStart(b, r, tMax, 3);
      }
    }
    if exists t :: tMin < t && Below(t, tMax) && StrictlyInside(b, At(r, t)) {
      var t :| tMin < t && Below(t, tMax) && StrictlyInside(b, At(r, t));
      InsideIffSlabs(b, r, t);
      RunAround(b, r, tMin, tMax, t, 3);
    }
  }

  /** The running bounds dominate each axis' entry and exit. */
  lemma {:induction false} RunBounds(b: AABB, r: Ray, tMin: real, tMax: Ext, k: nat)
    requires 1 <= k <= 3 && NonZeroComponents(r.d)
    ensures RunHi(b, r, tMax, k).Fin?
    ensures forall axis: Axis :: axis < k ==>
      Near(b, r, axis) <= RunLo(b, r, tMin, k) && RunHi(b, r, tMax, k).val <= Far(b, r, axis)
    ensures tMin <= RunLo(b, r, tMin, k)
  {
    if k > 1 {
      RunBounds(b, r, tMin, tMax, k - 1);
    }
  }

  lemma {:induction false} RunHiBelowStart(b: AABB, r: Ray, tMax: Ext, k: nat)
    requires 1 <= k <= 3 && NonZeroComponents(r.d)
    ensures RunHi(b, r, tMax, k).Fin?
    ensures forall t :: t < RunHi(b, r, tMax, k).val ==> Below(t, tMax)
  {
    if k > 1 {
      RunHiBelowStart(b, r, tMax, k - 1);
    }
  }

  /** A parameter strictly inside every slab and the starting interval stays inside the running interval. */
  lemma {:induction false} RunAround(b: AABB, r: Ray, tMin: real, tMax: Ext, t: real, k: nat)
    requires k <= 3 && NonZeroComponents(r.d)
    requires tMin < t && Below(t, tMax)
    requires InAllSlabs(b, r, t)
    ensures RunLo(b, r, tMin, k) < t && Below(t, RunHi(b, r, tMax, k))
  {
    if k > 0 {
      RunAround(b, r, tMin, tMax, t, k - 1);
    }
  }
}
