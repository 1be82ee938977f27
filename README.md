# GoLD_rayt core in Dafny

A verified model of the core of GoLD_rayt, a small physically based path
tracer in C++. The model covers:

- the ray and surface-interaction records, and the spawning of offset rays;
- spheres, hittable lists and the BVH (construction and traversal), with
  the slab test and the union of axis-aligned bounding boxes;
- the scalar and vector helpers, orthonormal frames, dielectric Fresnel and
  the shared microfacet terms;
- the Lambertian, mirror and area-light materials, and the BSDF flags;
- the 1-D and 2-D piecewise-constant sampling tables;
- the equirectangular environment map with importance sampling;
- the complex index-of-refraction table read from CSV lines;
- the image and the film, including the 8-bit conversion;
- the path integrator's per-sample loop `Li` and the per-pixel averaging
  of `render`.

Floating-point numbers are reals. The square root, the trigonometric
functions, the scene, the camera and all random numbers are parameters.
Where a proof needs something of them, it is stated as a precondition:
`IsSqrt` for an exact square root, and `EnvMaps.Laws` for the usual
identities of sin, cos, acos and atan2.

Objects whose methods update fields in place are classes:
`HittableLists.HittableList`, `Frame.Onb`, `Rays.RayDifferential`,
`Films.Film`, `EnvMaps.EnvMap`, `IorTables.IORInterpolator` and
`Integrators.PathIntegrator`. Loops of the source are methods with loop
invariants, each proved equal to a specification function:

- the CDF build and normalisation;
- the 2-D build;
- the BVH range sort and the centroid box;
- the list scan and the BVH traversal;
- the environment-map weight fill;
- the CSV merge;
- the film's writes and its 8-bit conversion;
- `Li` and `render`.

Each `.dfy` file is one module. Most are named after the header they model. `Hittables` gathers the `hit` code of `Hittable.hpp`, `HittableList.hpp` and `BVH.hpp` in one datatype. `Shading` models no single header; it is the closed family of the three materials modelled here.

## Model

| member | source | states |
|---|---|---|
| Rays.DefaultRay | GoLD_rayt/include/Core/Ray.hpp:50-52 | the default ray starts at the origin along +z with tMin = RAY_EPSILON and an unbounded tMax |
| Rays.MakeRay | GoLD_rayt/include/Core/Ray.hpp:60-62 | the constructor stores o, d and tMin (RAY_EPSILON by default) and always sets tMax to +infinity |
| Rays.At | GoLD_rayt/include/Core/Ray.hpp:70-72 | at(t) = o + t·d; `Rays.AtDifference` states its meaning: two points on the ray differ by the difference of their parameters times d, and at(0) = o |
| Rays.AtDifference | GoLD_rayt/include/Core/Ray.hpp:70-72 | points along the ray differ by a multiple of the direction, and at(0) is the origin |
| Rays.SpawnRay | GoLD_rayt/include/Core/Ray.hpp:122-132 | the spawned ray has direction wi, tMin = RAY_EPSILON, unbounded tMax, and its origin is p + n·ε when dot(n, wi) > 0 and p - n·ε otherwise |
| Rays.SpawnRayOffset | GoLD_rayt/include/Core/Ray.hpp:126-129 | for unit n, dot(origin - p, n) is +ε exactly when wi is strictly in n's hemisphere and -ε otherwise |
| Rays.RayDifferential.Default | GoLD_rayt/include/Core/Ray.hpp:87-93 | the default ray differential holds the default ray, no differentials and zero auxiliary rays |
| Rays.RayDifferential.FromOriginDirection | GoLD_rayt/include/Core/Ray.hpp:95-98 | building from o and d gives the ray Ray(o, d, tMin), no differentials and zero auxiliary rays |
| Rays.RayDifferential.FromRay | GoLD_rayt/include/Core/Ray.hpp:101-103 | building from a Ray keeps that ray, clears `hasDifferentials` and zeroes the auxiliary rays |
| Rays.RayDifferential.ScaleDifferentials | GoLD_rayt/include/Core/Ray.hpp:107-114 | a no-op without differentials; otherwise each auxiliary origin and direction moves to o + (x - o)·s, and with s = 1 nothing changes |
| Interaction.SetFaceNormal | GoLD_rayt/include/Core/Interaction.hpp:35-43 | gn is the geometric normal when dot(rayDir, normal) < 0 and its negation otherwise, so dot(rayDir, gn) <= 0; the shading normal equals gn; nothing else in the record changes |
| RtMath.Saturate | GoLD_rayt/include/Core/Math.hpp:61-64 | the result lies in [0, 1], is the identity on [0, 1], and clamps values below to 0 and above to 1 |
| RtMath.Lerp | GoLD_rayt/include/Core/Math.hpp:83-86 | the linear interpolation (1 - t)·a + t·b; `RtMath.LerpEndpoints` and `RtMath.LerpBetween` carry its properties (the endpoints at t = 0 and t = 1, and a value between a and b for t in [0, 1]) |
| RtMath.LerpEndpoints | GoLD_rayt/include/Core/Math.hpp:83-86 | lerp(a, b, 0) = a and lerp(a, b, 1) = b |
| RtMath.LerpBetween | GoLD_rayt/include/Core/Math.hpp:83-86 | for t in [0, 1] the interpolant lies between a and b |
| RtMath.SafeRecip | GoLD_rayt/include/Core/Math.hpp:91-98 | exactly the reciprocal when abs(x) >= 1e-6; otherwise ±1e6 with the sign of x, 0 counting as positive; always within ±1e6 and positive iff x >= 0 |
| RtMath.SafeRecipBound | GoLD_rayt/include/Core/Math.hpp:97 | outside the guard band the plain reciprocal is within ±1e6 as well |
| RtMath.ToRadians | GoLD_rayt/include/Core/Math.hpp:104-107 | degrees times π/180; `RtMath.DegreesRoundTrip` proves that `RtMath.ToDegrees` undoes it |
| RtMath.ToDegrees | GoLD_rayt/include/Core/Math.hpp:110-113 | radians times 180/π; `RtMath.DegreesRoundTrip` proves that it undoes `RtMath.ToRadians` |
| RtMath.DegreesRoundTrip | GoLD_rayt/include/Core/Math.hpp:104-113 | toDegrees(toRadians(x)) = x |
| RtMath.ReflectIncident | GoLD_rayt/include/Core/Math.hpp:121-123 | v - 2(v·n)n; `RtMath.ReflectIncidentGeometry` carries its property: for unit n the normal component is negated and the length is kept |
| RtMath.ReflectIncidentGeometry | GoLD_rayt/include/Core/Math.hpp:121-123 | for unit n the reflection negates the normal component and keeps the length |
| RtMath.ReflectOutward | GoLD_rayt/include/Core/Math.hpp:127-131 | reflectIncident(-wo, n); `RtMath.ReflectOutwardGeometry` carries its property: for unit n the normal component and the length are kept |
| RtMath.ReflectOutwardGeometry | GoLD_rayt/include/Core/Math.hpp:127-131 | for unit n the outward reflection keeps the normal component and the length |
| RtMath.RefractIncident | GoLD_rayt/include/Core/Math.hpp:141-158 | reports failure exactly when eta^2 (1 - cos^2) > 1 (total internal reflection), and then leaves `refracted` untouched |
| RtMath.RefractedIsUnit | GoLD_rayt/include/Core/Math.hpp:147-155 | for unit v and n and an exact sqrt, a successful refraction yields a unit direction |
| RtMath.TransmittedLength | GoLD_rayt/include/Core/Math.hpp:148-155 | the squared length of eta v + (eta cos_i - cos_t) n is 1, Snell's law in algebraic form |
| RtMath.DotOfCombination | GoLD_rayt/include/Core/Math.hpp:155 | the squared length of p a + q b in terms of the dot products |
| RtMath.MaxComponent | GoLD_rayt/include/Core/Math.hpp:216-219 | the result is at least every component and equals one of them |
| Frame.Sign | GoLD_rayt/include/Geometry/Frame.hpp:33 | copysign(1, z) is ±1, has the sign of z, and s·z >= 0 |
| Frame.BasisDenominator | GoLD_rayt/include/Geometry/Frame.hpp:33-34 | the denominator sign + N.z is at least 1 in absolute value, never 0 |
| Frame.MakeOrthonormalBasisOrthonormal | GoLD_rayt/include/Geometry/Frame.hpp:32-39 | for unit N the Frisvad T and B are unit, perpendicular to each other and to N |
| Frame.CombineCoefficients | GoLD_rayt/include/Geometry/Frame.hpp:86-88 | against an orthonormal basis the combination a.x u + a.y v + a.z w has dot products a.x, a.y, a.z and the length of a |
| Frame.LocalToWorldFrame | GoLD_rayt/include/Geometry/Frame.hpp:42-50 | the free localToWorld maps (0,0,1) to normalize(n), keeps lengths and makes v.z the component along normalize(n) |
| Frame.CrossFacts | GoLD_rayt/include/Geometry/Frame.hpp:82 | w × u is perpendicular to both and has the Lagrange-identity length |
| Frame.TangentBasisOrthonormal | GoLD_rayt/include/Geometry/Frame.hpp:71-83 | whichever branch buildFromNormalAndTangent takes (fallback when the projected tangent's squared length is below 1e-12, Gram-Schmidt otherwise), (u, v, w) is orthonormal |
| Frame.Onb.constructor | GoLD_rayt/include/Geometry/Frame.hpp:54-58 | the default basis is all zero |
| Frame.Onb.FromNormal | GoLD_rayt/include/Geometry/Frame.hpp:61-63 | the basis built from n has w = normalize(n), the Frisvad u and v around it, and is orthonormal |
| Frame.Onb.BuildFromW | GoLD_rayt/include/Geometry/Frame.hpp:65-68 | w becomes normalize(n), (u, v) the Frisvad pair around it, and the basis is orthonormal |
| Frame.Onb.BuildFromNormalAndTangent | GoLD_rayt/include/Geometry/Frame.hpp:71-83 | w becomes normalize(n), (u, v) the tangent-following pair or the fallback, and the basis is orthonormal |
| Frame.Onb.LocalToWorld | GoLD_rayt/include/Geometry/Frame.hpp:86-88 | for an orthonormal basis the world vector's components along u, v, w are a's coordinates and its length is a's |
| Frame.Onb.WorldToLocal | GoLD_rayt/include/Geometry/Frame.hpp:91-93 | for an orthonormal basis, LocalToWorld of the local coordinates gives the world vector back (and `Frame.OnbRoundTrip` is the other direction) |
| Frame.BasisSpans | GoLD_rayt/include/Geometry/Frame.hpp:86-93 | an orthonormal basis spans space: recombining a's components along u, v and w gives a, because only the zero vector is perpendicular to all three |
| Frame.OnbRoundTrip | GoLD_rayt/include/Geometry/Frame.hpp:86-93 | worldToLocal(localToWorld(a)) = a for an orthonormal basis |
| Spheres.SphereRoot | GoLD_rayt/include/Geometry/Sphere.hpp:51-69 | no root for a zero direction (a == 0); otherwise any root reported lies in [tMin, tMax] |
| Spheres.SphereTrace | GoLD_rayt/include/Geometry/Sphere.hpp:45-92 | the call reports a hit iff a root is kept; on a hit the ray's tMax becomes rec.t, which lay in range; on a miss ray and record are unchanged |
| Spheres.SphereHit | GoLD_rayt/include/Geometry/Sphere.hpp:45-92 | the step-by-step hit test (a == 0 guard, negative-discriminant guard, near root then far root, record fill, tMax update) computes `SphereTrace` |
| Spheres.SphereBounds | GoLD_rayt/include/Geometry/Sphere.hpp:98-101 | the box [center - radius, center + radius]; `Spheres.SphereBoundsContainSurface` proves it contains every surface point |
| Spheres.SphereBoundsContainSurface | GoLD_rayt/include/Geometry/Sphere.hpp:98-101 | the box [center - radius, center + radius] contains every surface point when the radius is non-negative |
| Spheres.OnSphereIffQuadratic | GoLD_rayt/include/Geometry/Sphere.hpp:38-55 | the ray point at t is on the sphere iff t solves a t^2 + 2 half_b t + c = 0 |
| Spheres.SphereOffset | GoLD_rayt/include/Geometry/Sphere.hpp:47-55 | the squared distance of the point at t from the centre is the half-b polynomial in t |
| Spheres.QuadraticRoots | GoLD_rayt/include/Geometry/Sphere.hpp:58-66 | with sq^2 = half_b^2 - a c, the two half-b roots are exactly the solutions of the quadratic |
| Spheres.QuadraticDiscriminant | GoLD_rayt/include/Geometry/Sphere.hpp:58-59 | a real solution forces a non-negative discriminant, so the `discriminant < 0` exit loses no hit |
| Spheres.SphereRootSound | GoLD_rayt/include/Geometry/Sphere.hpp:62-73 | with an exact sqrt the reported parameter is a point of the sphere |
| Spheres.SurfacePointSolves | GoLD_rayt/include/Geometry/Sphere.hpp:49-59 | a surface point at t solves the quadratic and makes the discriminant non-negative |
| Spheres.SolutionOnSphere | GoLD_rayt/include/Geometry/Sphere.hpp:38 | a solution of the quadratic is a point of the sphere |
| Spheres.SphereRootSolves | GoLD_rayt/include/Geometry/Sphere.hpp:60-69 | the reported parameter solves the quadratic |
| Spheres.PickRootSolves | GoLD_rayt/include/Geometry/Sphere.hpp:64-69 | whichever of the two roots is kept solves the quadratic |
| Spheres.SphereRootIsNearest | GoLD_rayt/include/Geometry/Sphere.hpp:62-69 | for a non-zero direction a hit is reported whenever some surface point lies in range, and the reported t is no later than any of them: the smallest qualifying root |
| Spheres.SolutionBoundsRoot | GoLD_rayt/include/Geometry/Sphere.hpp:62-69 | a solution in range bounds the reported root from above |
| Spheres.SqrtOfDiscriminant | GoLD_rayt/include/Geometry/Sphere.hpp:58-60 | with an exact sqrt, `sqrtd` is a non-negative square root of the discriminant |
| Spheres.PickRootNearest | GoLD_rayt/include/Geometry/Sphere.hpp:64-69 | trying the nearer root first finds a root whenever a solution is in range, and no later than it |
| Spheres.NearBeforeFar | GoLD_rayt/include/Geometry/Sphere.hpp:63-66 | for a > 0 the root tried first is not after the second one |
| Spheres.SphereRootShrink | GoLD_rayt/include/Geometry/Sphere.hpp:87-89 | shrinking tMax keeps the reported root if it is still in range and otherwise turns the hit into a miss, which is what a list or BVH relies on |
| Spheres.CoefficientsIgnoreRange | GoLD_rayt/include/Geometry/Sphere.hpp:47-58 | the quadratic depends on the ray's origin and direction only |
| Spheres.PickRootShrink | GoLD_rayt/include/Geometry/Sphere.hpp:64-69 | root selection on a shrunk interval keeps the old root if still in range, else none |
| Spheres.SphereRecordFacts | GoLD_rayt/include/Geometry/Sphere.hpp:71-89 | on a hit the record holds t, p = o + t d on the sphere, a unit normal facing against the ray, the sphere's material, and the caller's other fields |
| Spheres.RecordAtSurfacePoint | GoLD_rayt/include/Geometry/Sphere.hpp:72-83 | the record written for a surface point: p = at(t), unit face normal opposing the ray, shading normal equal to it, material recorded |
| Aabb.Unite | GoLD_rayt/include/Core/AABB.hpp:41-47 | the united box encloses both arguments and is the least box that does |
| Aabb.UniteAlgebra | GoLD_rayt/include/Core/AABB.hpp:42-47 | `unite` is commutative, associative and idempotent |
| Aabb.EnclosesTransitive | GoLD_rayt/include/Core/AABB.hpp:41-47 | enclosure, the relation the BVH boxes are built on, is transitive |
| Aabb.CenterAndExtent | GoLD_rayt/include/Core/AABB.hpp:49-56 | for a well-formed box the centre lies inside it, the extent is non-negative and min + extent = max |
| Aabb.Intersect | GoLD_rayt/include/Core/AABB.hpp:21-39 | the three-axis loop with its early `return false` answers exactly the slab verdict: the interval left after all three axes is non-empty |
| Aabb.SlabEnds | GoLD_rayt/include/Core/AABB.hpp:26-30 | one axis' entry and exit parameters, swapped when 1/d is negative |
| Aabb.RunStaysEmpty | GoLD_rayt/include/Core/AABB.hpp:32-36 | once the running interval is empty, later axes cannot reopen it, so the early return agrees with the full test |
| Aabb.SlabAxis | GoLD_rayt/include/Core/AABB.hpp:26-33 | on one axis the point at t is strictly between the two planes iff t is strictly between the slab's entry and exit |
| Aabb.InsideIffSlabs | GoLD_rayt/include/Core/AABB.hpp:25-33 | the point at t is strictly inside the box iff t is strictly inside all three slabs |
| Aabb.AxisSlab | GoLD_rayt/include/Core/AABB.hpp:26-33 | the per-axis slab equivalence stated on a box and a ray |
| Aabb.SlabHitIff | GoLD_rayt/include/Core/AABB.hpp:24-39 | the test says true iff some t strictly inside (tMin, tMax) puts the ray strictly inside the box, so an empty or zero-length interval always fails |
| Aabb.RunBounds | GoLD_rayt/include/Core/AABB.hpp:32-33 | the running max/min dominate every axis' entry and exit seen so far and never drop below tMin |
| Aabb.RunHiBelowStart | GoLD_rayt/include/Core/AABB.hpp:33 | the running upper end only shrinks from the caller's tMax |
| Aabb.RunAround | GoLD_rayt/include/Core/AABB.hpp:32-33 | a parameter inside the start interval and every slab stays inside the running interval |
| BvhBuild.CentroidBox | GoLD_rayt/include/Renderer/BVH.hpp:33-44 | the centroid box contains the centroid of every object in the range |
| BvhBuild.GrowCentroidBox | GoLD_rayt/include/Renderer/BVH.hpp:37-42 | one step of the min/max fold keeps every centroid seen so far inside the box |
| BvhBuild.SplitAxis | GoLD_rayt/include/Renderer/BVH.hpp:45-48 | the chosen axis has the largest centroid extent, and every lower axis is strictly smaller (ties go to x, then y) |
| BvhBuild.ChooseAxis | GoLD_rayt/include/Renderer/BVH.hpp:45-50 | the two comparisons of the source pick exactly `SplitAxis` |
| BvhBuild.CentroidBoxOf | GoLD_rayt/include/Renderer/BVH.hpp:33-44 | the loop over objects[start, end) computes `CentroidBox` of that range |
| BvhBuild.SwapStep | GoLD_rayt/include/Renderer/BVH.hpp:76 | one exchange of an out-of-order neighbour keeps the insertion state of the range sort |
| BvhBuild.InsertDone | GoLD_rayt/include/Renderer/BVH.hpp:76 | the insertion stops with the range sorted one element further |
| BvhBuild.Swap | GoLD_rayt/include/Renderer/BVH.hpp:76 | exchanging two slots changes only those two and keeps the multiset |
| BvhBuild.InsertOne | GoLD_rayt/include/Renderer/BVH.hpp:76 | inserting a[i] leaves a[lo..i] sorted, permuted, and everything outside untouched |
| BvhBuild.SortRange | GoLD_rayt/include/Renderer/BVH.hpp:52-76 | the range sort by centroid key on the axis leaves objects[start, end) sorted and a permutation of itself, and every element outside it untouched |
| BvhBuild.RangeMultiset | GoLD_rayt/include/Renderer/BVH.hpp:76 | a permutation that keeps prefix and suffix permutes the middle range |
| BvhBuild.Build | GoLD_rayt/include/Renderer/BVH.hpp:26-89 | the constructor: only [start, end) is reordered and it stays a permutation; the split axis is the centroid box's longest axis; span 1 is a leaf holding objects[start]; span 2 orders the pair by key without reordering the vector; span >= 3 gives two subtrees whose left leaves all have keys no greater than the right leaves; the box is the leaf's bounds or the union of both children; the tree's leaves, in order, are a permutation of the range whose first half is the left child's, every leaf lies in the box, and the tree is well built (every node's box is exactly its children's) whenever the objects are |
| BvhBuild.LeafNode | GoLD_rayt/include/Renderer/BVH.hpp:61-64 | a single object becomes the only child, its bounds the box, and the node's one leaf is that object |
| BvhBuild.PairNode | GoLD_rayt/include/Renderer/BVH.hpp:65-88 | two objects become the children, the strictly smaller key first and the second on a tie; the box is their union and the leaves are the two objects in child order |
| BvhBuild.PairSummarized | GoLD_rayt/include/Renderer/BVH.hpp:82-88 | the node over an ordered pair has both objects as leaves, encloses both and is well built when they are |
| BvhBuild.SplitBuilt | GoLD_rayt/include/Renderer/BVH.hpp:75-88 | the node over the two builds of the sorted range's halves is the node built over the range: keys split between the halves, leaves a permutation of the range, left half first |
| BvhBuild.JoinHalves | GoLD_rayt/include/Renderer/BVH.hpp:77-88 | the node joining two built halves has their leaves in order, a box enclosing all of them, and is well built when both halves are |
| BvhBuild.BuiltOverSpheres | GoLD_rayt/include/Renderer/BVH.hpp:26-89 | a tree built over spheres is well built and its leaves are those spheres reordered, which is what the traversal lemmas require |
| BvhBuild.PairEnclosed | GoLD_rayt/include/Renderer/BVH.hpp:65-88 | the union of a span-2 node's children encloses both objects, in either order |
| BvhBuild.OrderPair | GoLD_rayt/include/Renderer/BVH.hpp:65-74 | the object with the strictly smaller key comes first, the second one on a tie, so the children are ordered by key |
| BvhBuild.SplitAndRecurse | GoLD_rayt/include/Renderer/BVH.hpp:75-80 | sorting and building both halves keeps the range a permutation and leaves the outside alone; the node returned is the node built over the range, with its left subtree over the first half of the sorted range |
| BvhBuild.BuildHalves | GoLD_rayt/include/Renderer/BVH.hpp:77-79 | the two recursive builds over [start, mid) and [mid, end) each yield a node whose leaves are a permutation of its half, enclosed by its box, and which is well built when its half is |
| BvhBuild.HalvesFrame | GoLD_rayt/include/Renderer/BVH.hpp:78-79 | two recursive builds on adjacent ranges together only permute [start, end) |
| BvhBuild.SortFrame | GoLD_rayt/include/Renderer/BVH.hpp:76-79 | the sort followed by the builds keeps the outside of the range and the multiset inside it |
| BvhBuild.PartitionKeys | GoLD_rayt/include/Renderer/BVH.hpp:76-79 | after the sort every leaf of the left half has a key no greater than every leaf of the right half |
| Hittables.ListBoundsEnclose | GoLD_rayt/include/Geometry/HittableList.hpp:39-51 | a non-empty list's bounds enclose the bounds of each of its objects |
| Hittables.FoldBoundsEnclose | GoLD_rayt/include/Geometry/HittableList.hpp:46-50 | the running `unite` fold over the first n objects encloses each of them |
| Hittables.NarrowedTransitive | GoLD_rayt/include/Geometry/HittableList.hpp:21-23 | two successive shrinks of tMax compose into one shrink, so tMax only decreases |
| Hittables.Trace | GoLD_rayt/include/Geometry/HittableList.hpp:21-23 | every `hit` of every kind keeps the shared contract: on a hit tMax becomes the record's t, which lay in the old interval; on a miss neither the ray nor the record changes |
| Hittables.TracePair | GoLD_rayt/include/Renderer/BVH.hpp:109-118 | an internal node's two child tests, the second on the ray the first left behind, keep the same contract |
| Hittables.TraceList | GoLD_rayt/include/Geometry/HittableList.hpp:24-37 | the list loop from object i on: a miss leaves ray and record unchanged, a hit is reported once any object hit, and a new hit shrinks tMax to its t |
| Hittables.HitAny | GoLD_rayt/include/Geometry/Hittable.hpp:1-25 | the virtual dispatch of `hit` agrees with `Trace` |
| Hittables.HitList | GoLD_rayt/include/Geometry/HittableList.hpp:24-37 | the loop that sets `r.tMax = tempRec.t` and copies `rec = tempRec` on each hit computes `Trace` of the list |
| Hittables.HitBvh | GoLD_rayt/include/Renderer/BVH.hpp:91-119 | the box test on the ray's current interval, the leaf's only child, or both children nearer-first along the split axis, computes `Trace` of the node |
| Hittables.BvhPruneSound | GoLD_rayt/include/Renderer/BVH.hpp:93-94 | a failed box test reports a miss with the record unchanged, and no point strictly inside the box lies strictly inside the ray's interval |
| Hittables.BvhHitIffChild | GoLD_rayt/include/Renderer/BVH.hpp:103-118 | an internal node whose box test passes visits `right` first iff d[splitAxis] < 0 and reports a hit iff either child does |
| Hittables.Nearer | GoLD_rayt/include/Geometry/HittableList.hpp:28-34 | the nearer of two optional roots exists iff either does, is one of them and is at most both |
| Hittables.NearestRoot | GoLD_rayt/include/Geometry/HittableList.hpp:19-34 | the nearest root over the first n spheres is one of their roots and no greater than any of them |
| Hittables.SphereStep | GoLD_rayt/include/Geometry/HittableList.hpp:29-33 | testing one sphere on the shrunk ray updates the record exactly when its root is nearer than every root before it |
| Hittables.ListStateStep | GoLD_rayt/include/Geometry/HittableList.hpp:28-34 | one iteration of the list loop keeps its invariant: hit so far iff some sphere so far has a root, with rec.t that nearest root and tMax shrunk to it |
| Hittables.TraceListSpheres | GoLD_rayt/include/Geometry/HittableList.hpp:28-36 | from any loop state the rest of the loop reports the nearest root over the whole list |
| Hittables.TraceListSpheresStep | GoLD_rayt/include/Geometry/HittableList.hpp:28-34 | the inductive step of that statement: test sphere i, then the rest of the list |
| Hittables.TraceListUnfold | GoLD_rayt/include/Geometry/HittableList.hpp:29-33 | one iteration of the loop: on a hit tMax shrinks and rec takes the scratch record, otherwise both stay |
| Hittables.ListClosestHit | GoLD_rayt/include/Geometry/HittableList.hpp:19-36 | a list of spheres reports a hit iff some sphere has a root in [tMin, tMax]; the record's t is then the smallest such root, and on a miss the record is unchanged |
| Hittables.ListNearestSurface | GoLD_rayt/include/Geometry/HittableList.hpp:19-36 | every point of every sphere at an in-range parameter t makes the list report a hit with rec.t <= t |
| Hittables.BvhPairNearest | GoLD_rayt/include/Renderer/BVH.hpp:103-118 | a node with two sphere children ends with the nearer of the two roots whichever child it visits first |
| Hittables.LeavesOfAppend | GoLD_rayt/include/Renderer/BVH.hpp:26-89 | the leaves of a sequence of subtrees side by side are the leaves of each, in order |
| Hittables.WellBuiltEncloses | GoLD_rayt/include/Renderer/BVH.hpp:82-88 | in a well-built tree the box of every node encloses the bounds of every leaf below it |
| Hittables.TreeRootAttained | GoLD_rayt/include/Renderer/BVH.hpp:91-119 | the nearest root over a tree, when there is one, is the root of one of its sphere leaves |
| Hittables.IsNearestRootUnique | GoLD_rayt/include/Geometry/HittableList.hpp:28-34 | there is only one nearest root over a set of spheres |
| Hittables.NearestRootIsNearest | GoLD_rayt/include/Geometry/HittableList.hpp:28-34 | the list's running nearest root is attained by a member sphere and at most every member's root |
| Hittables.NearestIsMember | GoLD_rayt/include/Geometry/HittableList.hpp:28-34 | the nearest root over a list is the root of one of its spheres |
| Hittables.NearestBelowMember | GoLD_rayt/include/Geometry/HittableList.hpp:28-34 | the nearest root over a list exists and is at most the root of each sphere that has one |
| Hittables.TreeRootIsNearest | GoLD_rayt/include/Renderer/BVH.hpp:103-118 | the nearest root over a tree, taken child by child, is the nearest root over the flat list of its leaves |
| Hittables.TreeRootShrink | GoLD_rayt/include/Renderer/BVH.hpp:114-116 | cutting tMax down to some t keeps a tree's nearest root if it is at most t and removes it otherwise |
| Hittables.TreeRootBelowLeaf | GoLD_rayt/include/Renderer/BVH.hpp:103-118 | the nearest root over a tree is at most the root of each of its sphere leaves |
| Hittables.TraceSound | GoLD_rayt/include/Renderer/BVH.hpp:91-119 | whatever the box tests prune, a hit reported by a tree of spheres is at or beyond the nearest root over its leaves |
| Hittables.PairSound | GoLD_rayt/include/Renderer/BVH.hpp:109-118 | the same for an internal node's two child tests in either order |
| Hittables.TraceComplete | GoLD_rayt/include/Renderer/BVH.hpp:91-119 | a nearest root strictly inside the interval whose point is strictly inside its sphere's box survives every box test on the way down in a well-built tree, and is the t reported |
| Hittables.NearestInFirst | GoLD_rayt/include/Renderer/BVH.hpp:109-116 | when the nearest root lies in the first child visited, that child reports it and the second, tested on the shrunk ray, changes nothing |
| Hittables.NearestInSecond | GoLD_rayt/include/Renderer/BVH.hpp:109-116 | when the nearest root lies in the second child visited, the first reports nothing nearer and the second reports it on the shrunk ray |
| Hittables.BvhHitSound | GoLD_rayt/include/Renderer/BVH.hpp:91-119 | a hit reported by a BVH over spheres has t no smaller than the nearest root over all its leaves |
| Hittables.BvhClosestHit | GoLD_rayt/include/Renderer/BVH.hpp:91-119 | a well-built BVH over spheres reports the nearest root over its leaves when that root is strictly inside (tMin, tMax) and its point strictly inside the box of its sphere |
| Hittables.BvhAgreesWithList | GoLD_rayt/include/Renderer/BVH.hpp:91-119 | a BVH over spheres hits only where the flat list of its leaves hits, and the list's t is never larger |
| HittableLists.HittableList.constructor | GoLD_rayt/include/Geometry/HittableList.hpp:13 | the default list is empty |
| HittableLists.HittableList.FromObject | GoLD_rayt/include/Geometry/HittableList.hpp:14 | the one-object list holds exactly that object |
| HittableLists.HittableList.Add | GoLD_rayt/include/Geometry/HittableList.hpp:16 | appends exactly one object at the end |
| HittableLists.HittableList.Clear | GoLD_rayt/include/Geometry/HittableList.hpp:17 | leaves the list empty |
| HittableLists.HittableList.Hit | GoLD_rayt/include/Geometry/HittableList.hpp:24-37 | the closest-hit scan over the current objects, as `Trace` of the list |
| HittableLists.HittableList.Bounds | GoLD_rayt/include/Geometry/HittableList.hpp:39-51 | the degenerate box at the origin for an empty list, otherwise the fold of `unite`, which encloses every object's bounds |
| Fresnel.RatioSquare | GoLD_rayt/include/Core/Fresnel.hpp:99-103 | each squared amplitude ratio (p - q)/(p + q) with non-negative terms is in [0, 1], and is 1 exactly when one term is 0 |
| Fresnel.ReflectanceBounds | GoLD_rayt/include/Core/Fresnel.hpp:97-105 | below total internal reflection the mean of the two squared ratios lies in [0, 1] and is 1 exactly at grazing incidence |
| Fresnel.CosThetaTPositive | GoLD_rayt/include/Core/Fresnel.hpp:93-97 | below total internal reflection the transmitted cosine is positive, so both denominators are positive |
| Fresnel.SinThetaTNonNeg | GoLD_rayt/include/Core/Fresnel.hpp:90-91 | for positive indices Snell's sinThetaT = (etaI/etaT)·sinThetaI is non-negative |
| Fresnel.FresnelDielectric | GoLD_rayt/include/Core/Fresnel.hpp:86-106 | the dielectric Fresnel reflectance; its properties are carried by `Fresnel.FresnelInUnitInterval` (a value in [0, 1]), `Fresnel.FresnelFullReflection` (exactly 1 under total internal reflection), `Fresnel.FresnelMatchedIndices` and `Fresnel.FresnelClampsCosine` |
| Fresnel.FresnelInUnitInterval | GoLD_rayt/include/Core/Fresnel.hpp:86-106 | for etaI, etaT > 0 the reflectance lies in [0, 1] |
| Fresnel.FresnelFullReflection | GoLD_rayt/include/Core/Fresnel.hpp:87-105 | the result is exactly 1 iff sinThetaT >= 1 (total internal reflection) or the clamped cosine is 0 |
| Fresnel.FresnelMatchedIndices | GoLD_rayt/include/Core/Fresnel.hpp:87-105 | with etaI = etaT the result is 0 for every cosThetaI > 0, and 1 (the total-internal-reflection branch) at cosThetaI <= 0 |
| Fresnel.MatchedTransmission | GoLD_rayt/include/Core/Fresnel.hpp:90-97 | without a change of index cosThetaT equals the clamped cosThetaI |
| Fresnel.CosineFromSine | GoLD_rayt/include/Core/Fresnel.hpp:97 | the cosine recovered from a sine with sin^2 = 1 - c^2 is c itself, for c >= 0 |
| Fresnel.SinThetaISquare | GoLD_rayt/include/Core/Fresnel.hpp:87-90 | sinThetaI is the non-negative root of 1 - cos^2 for the saturated cosine |
| Fresnel.FresnelClampsCosine | GoLD_rayt/include/Core/Fresnel.hpp:87 | the cosine is saturated on entry, so pre-saturating it changes nothing |
| Microfacet.NewDistribution | GoLD_rayt/include/Microfacet/Distribution.hpp:36-38 | each alpha is max(1e-4, input): at least 1e-4, unchanged when already above |
| Microfacet.G | GoLD_rayt/include/Microfacet/Distribution.hpp:65-67 | Smith's separable term 1/(1 + λ(wo) + λ(wi)); `Microfacet.MaskingBounds` proves 0 < G <= min(G1(wo), G1(wi)) <= 1 for non-negative λ |
| Microfacet.G1 | GoLD_rayt/include/Microfacet/Distribution.hpp:73-75 | the one-direction term 1/(1 + λ(w)); `Microfacet.MaskingBounds` proves it lies in (0, 1] and bounds G from above |
| Microfacet.MaskingBounds | GoLD_rayt/include/Microfacet/Distribution.hpp:65-75 | for non-negative lambda values 0 < G <= min(G1(wo), G1(wi)) <= 1 |
| Microfacet.ReciprocalAntitone | GoLD_rayt/include/Microfacet/Distribution.hpp:65-75 | reciprocals of ordered positive denominators are positive and reverse the order |
| Microfacet.RoughnessToAlpha | GoLD_rayt/include/Microfacet/Distribution.hpp:98-101 | the result lies in [1e-6, 1] |
| Microfacet.RoughnessToAlphaMonotone | GoLD_rayt/include/Microfacet/Distribution.hpp:98-101 | a rougher surface never gets a smaller alpha |
| Microfacet.RoughnessToAlphaInRange | GoLD_rayt/include/Microfacet/Distribution.hpp:98-101 | inside [1e-3, 1] the mapping is exactly roughness squared |
| Materials.LobeFlagsDisjoint | GoLD_rayt/include/Materials/Material.hpp:16-23 | the five lobe flags are distinct single bits and `BSDF_ALL` contains each of them |
| Materials.NewSample | GoLD_rayt/include/Materials/Material.hpp:33-39 | a freshly declared sample has density 0 and is not specular |
| Materials.LobeSpecularity | GoLD_rayt/include/Materials/Material.hpp:39 | `isSpecular` is false for a DIFFUSE, REFLECTION sample and true for a SPECULAR, REFLECTION one |
| Materials.DefaultEmitted | GoLD_rayt/include/Materials/Material.hpp:90-93 | a material that does not override `emitted` emits black |
| Lambertian.Eval | GoLD_rayt/include/Materials/Lambertian.hpp:16-24 | black when dot(n, wi) <= 0 for the shading normal n, albedo/π otherwise |
| Lambertian.Pdf | GoLD_rayt/include/Materials/Lambertian.hpp:27-33 | never negative, and positive exactly when dot(n, wi) > 0 |
| Lambertian.EstimatorIsAlbedo | GoLD_rayt/include/Materials/Lambertian.hpp:16-33 | where the cosine is positive, eval·cos/pdf is exactly the albedo; neither value depends on wo or the geometric normal |
| Lambertian.Sample | GoLD_rayt/include/Materials/Lambertian.hpp:36-63 | no sample iff the world direction is at or below the shading normal; otherwise wi is the local direction taken to the world, f = albedo/π, pdf = localDir.z/π, flags DIFFUSE and REFLECTION, not specular |
| Lambertian.SampleMatchesEvalAndPdf | GoLD_rayt/include/Materials/Lambertian.hpp:16-63 | for a unit normal the sampler succeeds exactly for local directions with z > 0, and its f and pdf equal eval and pdf in the sampled direction |
| Mirror.Eval | GoLD_rayt/include/Materials/Mirror.hpp:15-19 | black for every input |
| Mirror.Pdf | GoLD_rayt/include/Materials/Mirror.hpp:22-25 | 0 for every input |
| Mirror.Sample | GoLD_rayt/include/Materials/Mirror.hpp:28-54 | never fails; f = albedo, pdf = 1, flags SPECULAR and REFLECTION, so the sample is specular |
| Mirror.SampleReflects | GoLD_rayt/include/Materials/Mirror.hpp:39 | wi = reflect(-wo, n), and for a unit n it has wo's normal component and wo's length |
| DiffuseLight.Eval | GoLD_rayt/include/Materials/DiffuseLight.hpp:46-50 | black for every input |
| DiffuseLight.Sample | GoLD_rayt/include/Materials/DiffuseLight.hpp:53-58 | never produces a sample |
| DiffuseLight.Pdf | GoLD_rayt/include/Materials/DiffuseLight.hpp:61-64 | 0 for every input |
| DiffuseLight.Emitted | GoLD_rayt/include/Materials/DiffuseLight.hpp:71-77 | the light's colour iff dot(n, wo) > 0, black otherwise |
| DiffuseLight.EmissionIsOneSided | GoLD_rayt/include/Materials/DiffuseLight.hpp:71-77 | scaling wo by a positive factor does not change the emission, and the opposite side sees black wherever this side sees light |
| Shading.Eval | GoLD_rayt/include/Materials/Material.hpp:57-59 | the virtual `eval`, dispatched to `Lambertian.Eval`, `Mirror.Eval` or `DiffuseLight.Eval`; `Shading.MaterialRoles` states which materials have a non-black value |
| Shading.Sample | GoLD_rayt/include/Materials/Material.hpp:69-72 | the virtual `sample`, dispatched to `Lambertian.Sample`, `Mirror.Sample` or `DiffuseLight.Sample`; `Shading.MaterialRoles` states that a light never samples and a mirror always samples a specular lobe |
| Shading.Pdf | GoLD_rayt/include/Materials/Material.hpp:82-83 | the virtual `pdf`, dispatched to each material's `Pdf`; `Shading.MaterialRoles` states that every pdf is non-negative and only the diffuse one can be positive |
| Shading.Emitted | GoLD_rayt/include/Materials/Material.hpp:90-93 | the virtual `emitted`: `DiffuseLight.Emitted` for a light, the black default otherwise; `Shading.MaterialRoles` states that only lights emit |
| Shading.IsSpecular | GoLD_rayt/include/Materials/Material.hpp:96 | the virtual `isSpecular`, which no modelled material overrides; `Shading.MaterialRoles` states that it is false even for the mirror |
| Shading.MaterialRoles | GoLD_rayt/include/Materials/Material.hpp:57-96 | across the material family: only lights emit; only the diffuse material has a density or a value in a given direction; a light never samples; a mirror always samples a specular lobe although it keeps the default `isSpecular` = false; every pdf is non-negative |
| SpectrumUtils.Sanitize | GoLD_rayt/include/Core/SpectrumUtils.hpp:24-30 | for finite input, the component-wise max(s, 0), so every component is non-negative |
| SpectrumUtils.SanitizeIdentity | GoLD_rayt/include/Core/SpectrumUtils.hpp:29 | the identity on non-negative spectra, hence idempotent |
| SpectrumUtils.SanitizeKeepsBlackness | GoLD_rayt/include/Core/SpectrumUtils.hpp:11-29 | isBlack(Sanitize(s)) iff isBlack(s) |
| Types.NormalizeIsUnit | GoLD_rayt/include/Geometry/Frame.hpp:44-72 | `glm::normalize` of a non-zero vector has unit length |
| Images.DefaultImage | GoLD_rayt/include/Core/Image.hpp:22 | the default image is 0×0 with no pixels and is not valid |
| Images.PixelIndexBijective | GoLD_rayt/include/Core/Image.hpp:62-71 | on a w×h grid the row-major index y·w + x maps the coordinates one-to-one onto [0, w·h) |
| Images.IndexInside | GoLD_rayt/include/Core/Image.hpp:69-71 | an in-bounds coordinate's index lies inside the pixel vector |
| Images.IndexInjective | GoLD_rayt/include/Core/Image.hpp:69-71 | distinct in-bounds coordinates have distinct indices |
| Images.IndexSurjective | GoLD_rayt/include/Core/Image.hpp:69-71 | every index comes from the coordinate (i % w, i / w) |
| Images.At | GoLD_rayt/include/Core/Image.hpp:69-71 | the const accessor returns a pixel of the image; it demands in-bounds coordinates, since the source does no bounds check |
| Images.WithPixel | GoLD_rayt/include/Core/Image.hpp:83-85 | a write through the mutable accessor keeps the image valid with the same dimensions |
| Images.AtWithPixel | GoLD_rayt/include/Core/Image.hpp:69-85 | after a write the written pixel reads back the new value and every other pixel is unchanged |
| Films.Reinhard | GoLD_rayt/src/Film.cpp:58 | Reinhard x/(x+1) maps non-negative radiance into [0, 1) |
| Films.ReinhardMonotone | GoLD_rayt/src/Film.cpp:58 | tone mapping keeps the order of non-negative radiances |
| Films.Quantize | GoLD_rayt/src/Film.cpp:67-69 | truncating 255.99·saturate(v) gives a byte in 0..255, 0 for v <= 0 and 255 for v >= 1 |
| Films.QuantizeMonotone | GoLD_rayt/src/Film.cpp:67-69 | a brighter channel never gets a smaller byte |
| Films.LdrChannel | GoLD_rayt/src/Film.cpp:58-69 | tone map, gamma and quantise always give a byte in 0..255 |
| Films.LdrChannelMonotone | GoLD_rayt/src/Film.cpp:58-69 | with a gamma curve monotone on [0, 1), a brighter non-negative channel never gets a smaller byte |
| Films.Film.constructor | GoLD_rayt/src/Film.cpp:13-17 | a film of the given resolution has width·height pixels, all black |
| Films.Film.SetPixel | GoLD_rayt/src/Film.cpp:19-27 | out-of-range coordinates change nothing; in range, the pixel at y·width + x becomes the radiance and no other pixel changes |
| Films.Film.LdrByte | GoLD_rayt/src/Film.cpp:67-69 | byte k of the output is channel k % 3 of pixel k / 3, converted, and lies in 0..255 |
| Films.Film.LdrBytes | GoLD_rayt/src/Film.cpp:49-70 | the output has three bytes per pixel |
| Films.Film.LdrBytesLayout | GoLD_rayt/src/Film.cpp:51-70 | in the output, bytes 3i, 3i+1, 3i+2 are pixel i's converted r, g, b and every byte is in 0..255 |
| Films.Film.PixelBytesKept | GoLD_rayt/src/Film.cpp:51-70 | writing another pixel's bytes leaves pixel j's bytes intact |
| Films.Film.LdrBytesFromPixels | GoLD_rayt/src/Film.cpp:51-70 | a byte sequence in which every pixel holds its converted channels is the output |
| Films.Film.WritePixel | GoLD_rayt/src/Film.cpp:52-69 | one iteration of the save loop writes pixel i's three bytes and keeps every earlier byte |
| Films.Film.ToLdr | GoLD_rayt/src/Film.cpp:49-70 | the loop's output array is exactly `LdrBytes` of the film's pixels |
| Distributions1D.MakeDistribution1D | GoLD_rayt/include/Core/Distribution1D.hpp:36-55 | the constructed distribution keeps func, has n + 1 CDF entries, funcInt = the raw cdf[n], and each entry is the normalised running integral |
| Distributions1D.Build | GoLD_rayt/include/Core/Distribution1D.hpp:36-55 | the two loops of the constructor build exactly `MakeDistribution1D(f)` |
| Distributions1D.PrefixSums | GoLD_rayt/include/Core/Distribution1D.hpp:37-44 | after the first loop cdf[0] = 0 and cdf[i+1] = cdf[i] + func[i]/n for every i |
| Distributions1D.NormaliseCdf | GoLD_rayt/include/Core/Distribution1D.hpp:46-54 | after the second loop the CDF is the uniform ramp i/n when funcInt == 0 and the running integral divided by funcInt otherwise |
| Distributions1D.Count | GoLD_rayt/include/Core/Distribution1D.hpp:105 | `count()` is the number n of input values |
| Distributions1D.RawCdfMonotone | GoLD_rayt/include/Core/Distribution1D.hpp:42-44 | for non-negative func the running integral never decreases |
| Distributions1D.ZeroIntegral | GoLD_rayt/include/Core/Distribution1D.hpp:46-50 | a non-negative func whose integral is 0 is 0 in every bin, which is when the uniform ramp is used |
| Distributions1D.CdfNormalised | GoLD_rayt/include/Core/Distribution1D.hpp:38-54 | the CDF starts at 0, ends at 1 for n >= 1, and for non-negative func is non-decreasing with every entry in [0, 1] |
| Distributions1D.CdfEntryMonotone | GoLD_rayt/include/Core/Distribution1D.hpp:49-54 | for non-negative func, normalised entries are ordered like their indices |
| Distributions1D.CdfEnd | GoLD_rayt/include/Core/Distribution1D.hpp:49-54 | the last CDF entry is 1 whether the ramp or the division was used |
| Distributions1D.UpperBound | GoLD_rayt/include/Core/Distribution1D.hpp:71 | the halving search returns a position inside the searched range |
| Distributions1D.UpperBoundSplits | GoLD_rayt/include/Core/Distribution1D.hpp:70-71 | on a sorted CDF, `upper_bound` is the first position holding a value above u: everything before is <= u, everything from it on is > u |
| Distributions1D.UpperBoundLeft | GoLD_rayt/include/Core/Distribution1D.hpp:71 | the halving step when u lies below the middle value keeps the left half |
| Distributions1D.UpperBoundRight | GoLD_rayt/include/Core/Distribution1D.hpp:71 | the halving step when u is not below the middle value continues right of it |
| Distributions1D.SampleContinuous | GoLD_rayt/include/Core/Distribution1D.hpp:64-100 | the exported `off` always lies in [0, n-1]; pdf = func[off]/funcInt when funcInt > 0 and exactly 1 otherwise |
| Distributions1D.BinPositionInBin | GoLD_rayt/include/Core/Distribution1D.hpp:87-99 | inside a non-empty CDF step the returned coordinate lies in [off/n, (off+1)/n) and in [0, 1) |
| Distributions1D.SampleInBin | GoLD_rayt/include/Core/Distribution1D.hpp:64-100 | for non-negative func and u >= 0: cdf[off] <= min(u, 0.99999994) < cdf[off+1]; the result x satisfies off/n <= x < (off+1)/n; with funcInt > 0 the bin has func[off] > 0 and the pdf is strictly positive |
| Distributions1D.SampleGeometry | GoLD_rayt/include/Core/Distribution1D.hpp:68-99 | on any sorted CDF from 0 to 1 the sample lands in the step containing the clamped u, at a position inside that bin, in [0, 1), and strictly positive for u > 0 |
| Distributions1D.SampleAt | GoLD_rayt/include/Core/Distribution1D.hpp:72-99 | once the search has found the step containing the clamped u, the coordinate is the bin start plus the relative offset inside the step |
| Distributions1D.SearchLandsInBin | GoLD_rayt/include/Core/Distribution1D.hpp:70-72 | on a sorted CDF from 0 to 1, `upper_bound` of a value in [0, 1) lands just after a step containing it, so the clamp changes nothing |
| Distributions1D.TruncScaledBin | GoLD_rayt/include/Core/Distribution1D.hpp:99 | a coordinate in bin off of n, scaled by n and truncated, gives the bin back |
| Distributions1D.InBin | GoLD_rayt/include/Core/Distribution1D.hpp:87-99 | the arithmetic of the in-bin position: du in [0, 1), x = (off + du)/n inside the bin |
| Distributions1D.PositiveStep | GoLD_rayt/include/Core/Distribution1D.hpp:43-79 | with a positive integral, a bin whose CDF step is positive has positive weight |
| Distributions2D.RowInside | GoLD_rayt/include/Core/Distribution2D.hpp:44-45 | row v's slice data[v·width, v·width + width) lies inside the width·height data |
| Distributions2D.Row | GoLD_rayt/include/Core/Distribution2D.hpp:45 | every row handed to a conditional has exactly `width` values |
| Distributions2D.RowIntegrals | GoLD_rayt/include/Core/Distribution2D.hpp:50-53 | the marginal function has `height` entries |
| Distributions2D.MakeDistribution2D | GoLD_rayt/include/Core/Distribution2D.hpp:42-55 | there is one conditional per row v, built from data[v·width, v·width + width), and the marginal is built from the rows' integrals |
| Distributions2D.Build2D | GoLD_rayt/include/Core/Distribution2D.hpp:42-55 | the constructor's two loops (emplace each conditional, push each integral) build exactly `MakeDistribution2D` |
| Distributions2D.MakeShaped | GoLD_rayt/include/Core/Distribution2D.hpp:42-55 | a grid with at least one row and column gives a marginal of height entries and conditionals all `width` wide, which is what `pdf` assumes |
| Distributions2D.Cell | GoLD_rayt/include/Core/Distribution2D.hpp:95-96 | the clamp keeps every looked-up index in [0, n-1], so lookups never go out of range |
| Distributions2D.CellOfBin | GoLD_rayt/include/Core/Distribution2D.hpp:95-96 | a coordinate in bin [off/n, (off+1)/n) is looked up in cell off |
| Distributions2D.RowNonNegative | GoLD_rayt/include/Core/Distribution2D.hpp:45 | every row of a non-negative grid is non-negative |
| Distributions2D.MakeRegular | GoLD_rayt/include/Core/Distribution2D.hpp:42-55 | a non-negative grid gives non-negative rows, conditionals built from them and a marginal built from their integrals |
| Distributions2D.Pdf2D | GoLD_rayt/include/Core/Distribution2D.hpp:89-109 | pdf with both indices clamped into the grid; its properties are carried by `Distributions2D.PdfAtCells`, `Distributions2D.Pdf2DNonNegative` and `Distributions2D.SamplePdfRoundTrip` |
| Distributions2D.Pdf2DNonNegative | GoLD_rayt/include/Core/Distribution2D.hpp:89-109 | the density of a constructed distribution is never negative, at any uv |
| Distributions2D.SampleStep | GoLD_rayt/include/Core/Distribution2D.hpp:72-75 | each 1-D step lands in the cell of its bin in [0, 1) with density func[off]/funcInt > 0, or 1 for a zero integral |
| Distributions2D.SampleContinuous2D | GoLD_rayt/include/Core/Distribution2D.hpp:67-81 | sampleContinuous: the row from the marginal with u.y, then the column from that row with u.x; its properties are carried by `Distributions2D.SampleInUnitSquare`, `Distributions2D.SampleParts` and `Distributions2D.SamplePdfRoundTrip` |
| Distributions2D.SampleInUnitSquare | GoLD_rayt/include/Core/Distribution2D.hpp:67-81 | for u >= 0 the sample lies in [0, 1)^2, strictly inside for u > 0, with positive density pdfU·pdfV |
| Distributions2D.SamplePdfRoundTrip | GoLD_rayt/include/Core/Distribution2D.hpp:67-109 | for a non-negative grid, `pdf(uv)` at the uv returned by `sampleContinuous` equals the pdf that call reported |
| Distributions2D.RoundTripAtCells | GoLD_rayt/include/Core/Distribution2D.hpp:95-108 | the round trip once both cells and the two 1-D densities are known, including the all-black marginal case (1 on both sides) |
| Distributions2D.SampleParts | GoLD_rayt/include/Core/Distribution2D.hpp:72-80 | the 2-D sample is (x from the chosen row's conditional, v from the marginal) with pdf = pdfU·pdfV |
| Distributions2D.PdfAtCells | GoLD_rayt/include/Core/Distribution2D.hpp:95-108 | at a uv whose cells are known, `pdf` is 1 for a zero marginal integral and otherwise (marginal.func[v]/marginal.funcInt)·(row.func[u]/row.funcInt) |
| EnvMaps.Luminance | GoLD_rayt/include/IO/EnvMap.hpp:132-135 | Rec. 709 luminance of a non-negative colour is non-negative |
| EnvMaps.LuminanceOfGrey | GoLD_rayt/include/IO/EnvMap.hpp:132-135 | the three weights sum to one, so a grey colour's luminance is its grey level |
| EnvMaps.Theta | GoLD_rayt/include/IO/EnvMap.hpp:138-142 | the polar angle of spherical v lies in [0, pi], strictly inside for v strictly inside (0, 1) |
| EnvMaps.Phi | GoLD_rayt/include/IO/EnvMap.hpp:147 | the azimuth of spherical u lies in [-pi, pi], strictly inside for u strictly inside (0, 1) |
| EnvMaps.SinThetaFromV | GoLD_rayt/include/IO/EnvMap.hpp:138-142 | sin(π·(1 - clamp(v, 0, 1))); its zero case is the guard of `EnvMaps.EnvMap.SolidAnglePdf`, `EnvMaps.EnvMap.Sample` and `EnvMaps.EnvMap.Pdf`, and it scales each row in `EnvMaps.Weights` |
| EnvMaps.UvToDir | GoLD_rayt/include/IO/EnvMap.hpp:146-158 | the y-up direction (sinθ·cosφ, cosθ, sinθ·sinφ) of (u, v); `EnvMaps.UvDirRoundTrip` proves it is a unit vector and that `EnvMaps.DirToUV` maps it back to (u, v) |
| EnvMaps.DirToUV | GoLD_rayt/include/IO/EnvMap.hpp:171-177 | u = (atan2(z, x) + π)/2π and v = 1 - acos(clamp(y))/π; `EnvMaps.DirToUVInUnitSquare` proves the result lies in the unit square and `EnvMaps.UvDirRoundTrip` that it inverts `EnvMaps.UvToDir` |
| EnvMaps.DirToUVInUnitSquare | GoLD_rayt/include/IO/EnvMap.hpp:171-177 | given the ranges of acos and atan2, every direction maps into the unit square |
| EnvMaps.UvDirRoundTrip | GoLD_rayt/include/IO/EnvMap.hpp:144-177 | on the open unit square uvToDir gives a unit vector, so normalising it changes nothing, and dirToUV maps it back to the same (u, v) |
| EnvMaps.PolarBack | GoLD_rayt/include/IO/EnvMap.hpp:148-176 | dirToUV's v undoes uvToDir's polar angle |
| EnvMaps.AzimuthBack | GoLD_rayt/include/IO/EnvMap.hpp:147-175 | dirToUV's u undoes uvToDir's azimuth |
| EnvMaps.CRem | GoLD_rayt/include/IO/EnvMap.hpp:192 | C++ `%` with a positive divisor: the remainder is smaller than the divisor in magnitude and has the dividend's sign |
| EnvMaps.WrapX | GoLD_rayt/include/IO/EnvMap.hpp:192 | the horizontal wrap always gives a column in [0, w), and that column is x modulo w |
| EnvMaps.WrapIsRemainder | GoLD_rayt/include/IO/EnvMap.hpp:192 | `(x % w + w) % w` with truncating `%` equals the mathematical remainder of x modulo w, negative x included |
| EnvMaps.Texel | GoLD_rayt/include/IO/EnvMap.hpp:188-196 | after wrapping x and clamping y, the texel read is one of the image's pixels |
| EnvMaps.BlendWithin | GoLD_rayt/include/IO/EnvMap.hpp:212-233 | the bilinear blend of the four neighbouring texels stays, channel by channel, within any range that holds every pixel |
| EnvMaps.SampleBilinear | GoLD_rayt/include/IO/EnvMap.hpp:205-234 | u wrapped by u - floor(u), v clamped, then the bilinear blend of the four texels; `EnvMaps.SampleBilinearWithin` proves the result stays within the range of the image's pixels |
| EnvMaps.SampleBilinearWithin | GoLD_rayt/include/IO/EnvMap.hpp:205-234 | the wrap puts u in [0, 1), and sampleBilinear never leaves the range of the image's pixels |
| EnvMaps.Weights | GoLD_rayt/include/IO/EnvMap.hpp:242-243 | the weight grid has width·height cells |
| EnvMaps.WeightsNonNegative | GoLD_rayt/include/IO/EnvMap.hpp:254-262 | with sin non-negative on [0, pi], every weight max(luminance, 0)·sin(theta) is non-negative, which Distribution2D needs |
| EnvMaps.FlatIndex | GoLD_rayt/include/IO/EnvMap.hpp:262 | the row-major index y·w + x of an in-range pixel lies in the grid and gives back x and y |
| EnvMaps.EnvMap.constructor | GoLD_rayt/include/IO/EnvMap.hpp:28-33 | the map keeps the image and has a distribution exactly when the image is valid, the one built from the image's weight grid |
| EnvMaps.EnvMap.FillRow | GoLD_rayt/include/IO/EnvMap.hpp:257-263 | the inner loop stores pixel (x, y)'s weight at y·w + x for every x of row y, extending the filled prefix by one row |
| EnvMaps.EnvMap.BuildDistribution | GoLD_rayt/include/IO/EnvMap.hpp:236-267 | after the row-by-row fill the distribution is the 2-D distribution of the image's weight grid, with the shape sample and pdf index into |
| EnvMaps.EnvMap.Eval | GoLD_rayt/include/IO/EnvMap.hpp:45-55 | an invalid image gives black |
| EnvMaps.EnvMap.EvalWithin | GoLD_rayt/include/IO/EnvMap.hpp:45-55 | the radiance of any direction stays within the range of the image's pixels |
| EnvMaps.EnvMap.SolidAnglePdf | GoLD_rayt/include/IO/EnvMap.hpp:93-123 | the conversion pdfUV / (2 pi^2 sin theta) keeps a positive density positive |
| EnvMaps.EnvMap.Sample | GoLD_rayt/include/IO/EnvMap.hpp:64-95 | the density is never negative, a zero density always comes with black radiance, and without a distribution the result is black with density 0 and the caller's direction unchanged |
| EnvMaps.EnvMap.Pdf | GoLD_rayt/include/IO/EnvMap.hpp:100-124 | the density is never negative and is 0 without a distribution |
| EnvMaps.EnvMap.SamplePdfConsistent | GoLD_rayt/include/IO/EnvMap.hpp:64-124 | for a valid map and u strictly inside the unit square, sample succeeds with positive density and a unit direction, pdf at that direction gives back exactly the reported density, and eval gives back exactly the reported radiance |
| EnvMaps.EnvMap.UvSampleFacts | GoLD_rayt/include/IO/EnvMap.hpp:71-74 | the uv sample of a valid map lies strictly inside the unit square with a positive density that the 2-D pdf gives back |
| EnvMaps.EnvMap.SampleSucceeds | GoLD_rayt/include/IO/EnvMap.hpp:76-94 | once the uv density and sin theta are positive, sample returns the bilinear radiance at (u, 1 - v), the direction of that uv, and the solid-angle density |
| EnvMaps.EnvMap.PdfAtUV | GoLD_rayt/include/IO/EnvMap.hpp:100-124 | at a direction whose uv is known and whose densities are positive, pdf is the converted density at (u, 1 - v) and eval is the bilinear lookup at uv |
| IorTables.Lookup | GoLD_rayt/include/IO/IORInterpolator.hpp:100-101 | a map holds a value under a key exactly when some entry has that key |
| IorTables.LookupAt | GoLD_rayt/include/IO/IORInterpolator.hpp:93-101 | in a map with strictly increasing keys, looking up an entry's key finds that entry's value |
| IorTables.InsertSpec | GoLD_rayt/include/IO/IORInterpolator.hpp:78-81 | `map[key] = value` leaves key holding value, keeps every other key's value, adds no other key, drops nothing, and keeps the keys strictly increasing |
| IorTables.InsertEntries | GoLD_rayt/include/IO/IORInterpolator.hpp:78-81 | the assignment adds no entry other than the one for key and never shrinks the map |
| IorTables.InsertOrdered | GoLD_rayt/include/IO/IORInterpolator.hpp:78-81 | the assignment keeps the map's keys strictly increasing |
| IorTables.InsertLookup | GoLD_rayt/include/IO/IORInterpolator.hpp:78-81 | after the assignment key holds value and every other key holds what it held before |
| IorTables.LowerBoundKey | GoLD_rayt/include/IO/IORInterpolator.hpp:107 | `map::lower_bound`: every key before the returned position is below the key searched, and the key at it (if any) is not |
| IorTables.LowerBoundKeyAbove | GoLD_rayt/include/IO/IORInterpolator.hpp:107 | in a map with increasing keys, every key from the lower bound on is at least the key searched |
| IorTables.ReplaceChar | GoLD_rayt/include/IO/IORInterpolator.hpp:51-52 | `std::replace` keeps the length and swaps exactly the occurrences of one character for another |
| IorTables.NormaliseSpec | GoLD_rayt/include/IO/IORInterpolator.hpp:51-52 | after the two replaces no comma or tab is left, every other character is kept, and the length is unchanged |
| IorTables.ContainsIff | GoLD_rayt/include/IO/IORInterpolator.hpp:57-58 | `find(sub) != npos` holds exactly when sub occurs at some position of the line |
| IorTables.LineStep | GoLD_rayt/include/IO/IORInterpolator.hpp:47-84 | the processing of one CSV line; `IorTables.LineStepOtherLines` and `IorTables.LineStepDataLine` carry its properties |
| IorTables.LineStepOtherLines | GoLD_rayt/include/IO/IORInterpolator.hpp:48-71 | an empty line, a header or a line whose two numbers do not parse leaves both maps alone; a header selects k mode exactly when it holds "k" |
| IorTables.LineStepDataLine | GoLD_rayt/include/IO/IORInterpolator.hpp:67-83 | a data line stores its value under wavelength·1000 in the current mode's map only, keeps every other key, keeps the mode, and both maps keep increasing keys |
| IorTables.StoreSpec | GoLD_rayt/include/IO/IORInterpolator.hpp:74-82 | storing sets one key of the current mode's map and changes nothing else |
| IorTables.ScanIncreasing | GoLD_rayt/include/IO/IORInterpolator.hpp:41-84 | both maps keep strictly increasing keys through any number of lines |
| IorTables.KFor | GoLD_rayt/include/IO/IORInterpolator.hpp:98-117 | the k lookup per n wavelength as written; `IorTables.KForSpec` states its cases and `IorTables.KForNotNearest` shows an input where it is not the nearest entry |
| IorTables.KForSpec | GoLD_rayt/include/IO/IORInterpolator.hpp:96-117 | the k value for a wavelength is the exact match when there is one, and otherwise either 0 or the value of a k entry within 1 nm of it |
| IorTables.KForNotNearest | GoLD_rayt/include/IO/IORInterpolator.hpp:102-115 | as written, the search takes the lower_bound entry within 1 nm even when the entry before it is nearer: k entries at 499.5 nm and 500.9 nm give 500 nm the value at 500.9 nm |
| IorTables.KForNearest | GoLD_rayt/include/IO/IORInterpolator.hpp:102-115 | the corrected k lookup of the Findings row; `IorTables.KForNearestIsNearest` proves it picks a nearest entry within 1 nm, or 0 when there is none |
| IorTables.KForNearestIsNearest | GoLD_rayt/include/IO/IORInterpolator.hpp:102-115 | the corrected search gives the value of an entry within 1 nm that is at least as near as every other entry whenever one is within 1 nm, and 0 otherwise |
| IorTables.NeighboursNearest | GoLD_rayt/include/IO/IORInterpolator.hpp:106-115 | with increasing keys, the lower_bound entry is the nearest of the entries from it on, and the one before it the nearest of those before |
| IorTables.Merge | GoLD_rayt/include/IO/IORInterpolator.hpp:92-124 | one data point per n entry, in the n map's order, with that entry's wavelength and n and the k value picked for it |
| IorTables.MergeOrdered | GoLD_rayt/include/IO/IORInterpolator.hpp:93-127 | the merged table's wavelengths strictly increase, so the sort at the end changes nothing |
| IorTables.LowerBound | GoLD_rayt/include/IO/IORInterpolator.hpp:139-140 | `std::lower_bound`'s halving search stays within the range searched |
| IorTables.LowerBoundSplits | GoLD_rayt/include/IO/IORInterpolator.hpp:139-140 | on an ordered table every wavelength before lower_bound's position is below the target and none from it on is |
| IorTables.SplitsRightOfMiddle | GoLD_rayt/include/IO/IORInterpolator.hpp:140 | the split property holds when the middle wavelength is below the target and the search moves right |
| IorTables.SplitsLeftOfMiddle | GoLD_rayt/include/IO/IORInterpolator.hpp:140 | the split property holds when the middle wavelength is not below the target and the search moves left |
| IorTables.Bracket | GoLD_rayt/include/IO/IORInterpolator.hpp:140-144 | strictly inside the table's range, lower_bound's position has a predecessor and the two points bracket the wavelength, p1 < wl <= p2 |
| IorTables.Param | GoLD_rayt/include/IO/IORInterpolator.hpp:146 | the interpolation parameter lies in (0, 1] and is 1 at p2's wavelength |
| IorTables.Interpolate | GoLD_rayt/include/IO/IORInterpolator.hpp:132-151 | evaluate's clamp and linear interpolation on the merged table; its properties are carried by `IorTables.InterpolateBetween`, `IorTables.IORInterpolator.Evaluate`, `IorTables.IORInterpolator.EvaluateAtSample` and `IorTables.IORInterpolator.EvaluateBetween` |
| IorTables.InterpolateBetween | GoLD_rayt/include/IO/IORInterpolator.hpp:139-150 | the interpolated n and k each lie between the bracketing points' values |
| IorTables.IORInterpolator.constructor | GoLD_rayt/include/IO/IORInterpolator.hpp:28 | a new table is empty (and trivially ordered) |
| IorTables.IORInterpolator.LoadCSV | GoLD_rayt/include/IO/IORInterpolator.hpp:32-129 | loading succeeds exactly when some n value was read; then the table is the merge of the two maps, otherwise it is left as it was; either way it stays ordered by strictly increasing wavelength |
| IorTables.IORInterpolator.MergeMaps | GoLD_rayt/include/IO/IORInterpolator.hpp:92-124 | the merge loop builds exactly one point per n entry, as `Merge` defines |
| IorTables.IORInterpolator.MatchK | GoLD_rayt/include/IO/IORInterpolator.hpp:96-117 | the k search (exact, lower_bound within 1 nm, its predecessor within 1 nm, else 0) gives exactly `KFor` |
| IorTables.IORInterpolator.Evaluate | GoLD_rayt/include/IO/IORInterpolator.hpp:132-151 | an empty table gives (1, 0); at or below the first wavelength the first point's (n, k), at or above the last the last point's |
| IorTables.IORInterpolator.EvaluateAtSample | GoLD_rayt/include/IO/IORInterpolator.hpp:132-151 | at a stored wavelength the table gives back exactly the stored (n, k) |
| IorTables.IORInterpolator.EvaluateBetween | GoLD_rayt/include/IO/IORInterpolator.hpp:139-150 | strictly inside the range the result interpolates between the two points around wl, each component between their values |
| Integrators.Start | GoLD_rayt/include/Renderer/Integrator.hpp:83-87 | a path starts with no radiance, unit throughput and no previous BSDF sample |
| Integrators.MisWeight | GoLD_rayt/include/Renderer/Integrator.hpp:147-152 | the power heuristic lies in [0, 1], strictly inside when both densities are positive, and is 1 when either is not |
| Integrators.MisWeightsComplement | GoLD_rayt/include/Renderer/Integrator.hpp:243-248 | with both densities positive, the light strategy's weight and the BSDF strategy's weight add up to one |
| Integrators.Trace | GoLD_rayt/include/Renderer/Integrator.hpp:82-321 | the radiance of the bounce loop, as written or corrected; `Integrators.PathIntegrator.Li` proves the loop equals it, and `Integrators.MissEndsPath`, `Integrators.HitAddsEmission`, `Integrators.TraceNonNegative` and `Integrators.CorrectedCountsEmissionOnce` carry its properties |
| Integrators.MissEndsPath | GoLD_rayt/include/Renderer/Integrator.hpp:137-161 | a miss always ends the path; without an environment it adds nothing; with one it adds beta·Le weighted by the power heuristic only after a non-specular BSDF sample, and with weight 1 otherwise |
| Integrators.HitAddsEmission | GoLD_rayt/include/Renderer/Integrator.hpp:167-254 | on a hit the bounce adds beta·Le(-d) and, when the light sample contributes, exactly that contribution, and nothing else |
| Integrators.ScatterKeepsRadiance | GoLD_rayt/include/Renderer/Integrator.hpp:259-317 | BSDF sampling and the throughput update add no radiance |
| Integrators.NeeConditions | GoLD_rayt/include/Renderer/Integrator.hpp:216-254 | the light sample contributes only with an environment, a non-specular material, a positive density, non-black radiance and an escaping shadow ray; a black BSDF value is reported as such; otherwise the contribution is beta·f·Le·abs(cos)·w/pdfEnv with the power-heuristic weight |
| Integrators.NeeBlackWhen | GoLD_rayt/include/Renderer/Integrator.hpp:224-234 | conversely, a light sample that passes every test but meets a black BSDF value is reported as a black BSDF |
| Integrators.NextFollowsSample | GoLD_rayt/include/Renderer/Integrator.hpp:259-317 | every bounce that goes on has hit a surface and drawn a BSDF sample; the new state records its density and specularity, its throughput is not black and was multiplied by f (specular) or by f·abs(cos)/pdf with pdf above 1e-8 (otherwise), and the next ray is spawned from the hit point along the sampled direction |
| Integrators.NoBouncesNoRadiance | GoLD_rayt/include/Renderer/Integrator.hpp:83-89 | with maxDepth <= 0 the loop never runs and the radiance is black |
| Integrators.BounceNonNegative | GoLD_rayt/include/Renderer/Integrator.hpp:137-317 | with non-negative emission, BSDF values, samples and environment radiance, one bounce keeps radiance and throughput non-negative |
| Integrators.MissNonNegative | GoLD_rayt/include/Renderer/Integrator.hpp:139-159 | the environment's contribution on a miss is non-negative |
| Integrators.NeeNonNegative | GoLD_rayt/include/Renderer/Integrator.hpp:237-251 | the light sample's contribution is non-negative |
| Integrators.ScatterNonNegative | GoLD_rayt/include/Renderer/Integrator.hpp:272-293 | the throughput update keeps the throughput non-negative |
| Integrators.TraceNonNegative | GoLD_rayt/include/Renderer/Integrator.hpp:82-321 | with physical collaborators the path tracer never returns negative radiance |
| Integrators.LightNeeIsBlack | GoLD_rayt/include/Renderer/Integrator.hpp:216-234 | at an area light under a bright sky the light sample passes every test and meets the light's black BSDF value |
| Integrators.NeeIgnoresRadiance | GoLD_rayt/include/Renderer/Integrator.hpp:216-254 | next event estimation does not depend on the radiance gathered so far |
| Integrators.AsWrittenRepeatsEmission | GoLD_rayt/include/Renderer/Integrator.hpp:167-234 | as written, a path at a surface where every light sample meets a black BSDF value never leaves it: each remaining bounce adds that surface's emission again |
| Integrators.AsWrittenRepeatsFromStart | GoLD_rayt/include/Renderer/Integrator.hpp:167-234 | from the camera, such a path returns maxDepth copies of the emission |
| Integrators.BlackBsdfRepeatsEmission | GoLD_rayt/include/Renderer/Integrator.hpp:167-234 | as written, a camera ray that sees an area light of brightness emit under a bright sky returns maxDepth·emit, whatever the random numbers |
| Integrators.CorrectedStopsAtBlackBsdf | GoLD_rayt/include/Renderer/Integrator.hpp:234-267 | corrected, such a surface ends the path as soon as its BSDF draws no sample, counting its emission once |
| Integrators.CorrectedCountsEmissionOnce | GoLD_rayt/include/Renderer/Integrator.hpp:167-234 | corrected, the same camera ray returns the light's emission exactly once, for any bounce limit of at least one and any random numbers |
| Integrators.JitterInPixel | GoLD_rayt/include/Renderer/Integrator.hpp:58-59 | a jitter in [0, 1) keeps the film coordinate inside the pixel's own interval [i/n, (i+1)/n) |
| Integrators.FlippedRow | GoLD_rayt/include/Renderer/Integrator.hpp:75 | the flipped row height - 1 - j of a row on the film is on the film |
| Integrators.SumOfEqual | GoLD_rayt/include/Renderer/Integrator.hpp:56-65 | k samples of equal radiance sum to k times that radiance |
| Integrators.PathIntegrator.constructor | GoLD_rayt/include/Renderer/Integrator.hpp:33-37 | the integrator keeps the camera, the environment, the bounce limit and the sample count |
| Integrators.PathIntegrator.MeanOfEqualSamples | GoLD_rayt/include/Renderer/Integrator.hpp:54-66 | when every sample of a pixel sees the same radiance, the pixel's mean is that radiance |
| Integrators.PathIntegrator.Li | GoLD_rayt/include/Renderer/Integrator.hpp:82-321 | the loop returns exactly the radiance `Trace` defines from the start state over maxDepth bounces, with the black-BSDF case corrected |
| Integrators.PathIntegrator.RenderPixel | GoLD_rayt/include/Renderer/Integrator.hpp:54-66 | the pixel's value is the mean of its spp samples, summed in sample order |
| Integrators.PathIntegrator.RenderedStep | GoLD_rayt/include/Renderer/Integrator.hpp:75 | storing pixel (i, j) at its flipped row lands on the film and extends what has been rendered by that one pixel |
| Integrators.PathIntegrator.Render | GoLD_rayt/include/Renderer/Integrator.hpp:40-79 | on a non-empty film every pixel (i, j) holds the mean of its jittered samples, stored at row height - 1 - j |

## Left out

- Floating point: every float and double is a real. Rounding, the float/double casts in `EnvMap` and `Distribution2D`, NaN and infinity are not modelled. `HasInvalidValues`, `hasNaNs`, `Ray::HasNaN` and the NaN branch of `Sanitize` have no counterpart: a real is never NaN.
- The ray's infinite `tMax` is the value `Inf` of `Types.Ext`. Comparisons against it are spelled out.
- Aabb.Intersect: requires every direction component to be non-zero. The source divides by zero there and relies on IEEE infinities, which reals do not have. `Hittables.Traceable` passes this requirement on to BVH nodes.
- Spheres.SphereTrace: requires a non-zero radius, because the source divides by the radius to build the normal. The normal is unit length only with an exact square root.
- EnvMaps.EnvMap.Eval: requires a non-zero direction. The same holds for `Pdf` and `EvalWithin`. The source normalises the direction first and would produce NaN for a zero vector.
- Films.Film.ToLdr: requires no channel equal to -1. At -1 the source's Reinhard curve divides by zero and produces an infinity, which saturate then clamps.
- The square root, sin, cos, acos, atan2 and the gamma `pow` of the colour transform are parameters. `IsSqrt` and `EnvMaps.Laws` state what the proofs assume of them.
- Randomness: the thread-local Mersenne Twister and the samplers built on it are not modelled. The integrator receives its random pairs as `Integrators.PathRandom` and `Integrators.PixelRandom`. The Lambertian material receives its cosine-distributed local direction as a parameter.
- The camera (`Camera.hpp`, tan and the lens disk) is a function parameter of `Integrators.PathIntegrator`.
- The scene, and the material behind a hit record, are records of functions in the integrator (`Integrators.Scene`, `Integrators.MaterialOps`). `Shading` gives the closed family of the three materials modelled here. `Scene.hpp` is a one-line forwarder and is not modelled.
- Integrators.PathIntegrator.Li: follows the corrected loop described under Findings. The loop as written is `Trace` with `AsWritten`, and the lemmas there state where the two differ.
- Integrators.PathIntegrator.Render: the progress and diagnostic output is left out, and so is the NaN guard, since a real mean is never NaN. With a non-positive sample count the pixel is black. In the source the division 0/spp gives NaN or zero, and either way the pixel ends up black.
- BvhBuild.Build: requires start < end. With an empty range the source sorts nothing, sets mid = start and constructs `BVHNode(objects, start, start)` again, recursing without end (BVH.hpp:76-79). No call in the source passes an empty range.
- Hittables.BvhClosestHit: proved only when the nearest root lies strictly inside (tMin, tMax) and its point strictly inside its sphere's box. The box test is strict (`Aabb.SlabHit`), so a root exactly at tMin, at tMax, or on a face of the box can be pruned. Outside that position `Hittables.BvhHitSound` still holds: a reported hit is never nearer than the nearest root. The traversal lemmas cover trees whose leaves are spheres; a flat list is covered by `Hittables.ListClosestHit`.
- IorTables.KForNearest: the loader keeps the search as written (`IorTables.KFor`, `IorTables.IORInterpolator.MatchK`), since that is the table the source builds. The corrected search of the Findings row is stated and proved beside it.
- BvhBuild.SortRange: `std::sort` is modelled as an insertion sort of the range by centroid. The contract says what `std::sort` promises: the range is sorted and is a permutation, and nothing outside it changes. When centroids tie, the order of the tied objects, and so the tree shape, may differ from the library's.
- IorTables.IORInterpolator.LoadCSV: opening the file and the failure to open it are left out, because the file is given as its lines. The extraction of two doubles by a stringstream is the parameter `parse`. The final `std::sort` is the identity, since `IorTables.MergeOrdered` proves the merged table is already strictly increasing. `printInfo` is left out.
- Image loading and saving (stb, file-extension dispatch, PNG/EXR writing) is left out. The film's 8-bit conversion is modelled; writing the bytes to a file is not.
- `Images.Image` is a value. A write through the mutable `at` becomes the image with one pixel replaced, and the map holds its image by value, as the source moves it in.
- `Rays.Ray` and `Interaction.SurfaceInteraction` are values. In `Hittables`, the in-place update of `r.tMax` and of the caller's record by `hit` is returned as a new ray and record. `setFaceNormal` returns the updated record.
- Integrators.Scene: the scene oracle returns only the record, not the ray with its shrunk `tMax`, so in `Li` the ray kept between iterations is the unshrunk one. In the source the local ray's `tMax` becomes rec.t after a hit, and a re-trace of that ray, as after the `continue`, finds the same hit only because the sphere test rejects a root only when tMax < root (Sphere.hpp:65), which keeps a root equal to tMax.
- `visible()` in the integrator is left out: it is not called by `Li`.
- Not part of this model: `fresnelConductor`, the GGX `lambda` and `sample_wh` (the microfacet terms take lambda as a parameter), `RoughConductor`, `Dielectric`, `MirrorConductor`, `SpectralMetal` and `ColorTransform`. They are approximations over transcendental functions and complex numbers.
- Also not modelled: the superseded duplicates at the include root, `main.cpp`, the interface-only headers, and `DebugTools/FrameDebug.cpp`. `Frame.OnbRoundTrip` states the property that debug program checks.

## Findings

| source | as written | input that shows it | evidently intended | confidence | as-written member | corrected member |
|---|---|---|---|---|---|---|
| GoLD_rayt/include/Renderer/Integrator.hpp:234 | When the BSDF value towards the light sample is black, `continue` skips the BSDF sampling and the ray update. The next iteration traces the same ray from the same state and adds the surface's emission again. | A camera ray that sees a `DiffuseLight` of brightness emit under a bright environment map. The light's BSDF is black everywhere, so each iteration whose environment sample reaches the sky unoccluded re-adds emit. `Li` returns up to maxDepth·emit instead of emit, and exactly maxDepth·emit when every light sample escapes, as in `Integrators.LightScene` (an emitting plane under a sky whose samples all point up). On a sphere light a sample into the light's own sphere is occluded; the path then reaches `DiffuseLight::sample`, which returns no sample, and ends with k·emit for some k between 1 and maxDepth. A mirror is affected too, since it does not override `isSpecular` and its `eval` is black. | Drop only this light sample's contribution and go on to sample the BSDF. The emission is then counted once. | not executed | Integrators.BlackBsdfRepeatsEmission | Integrators.CorrectedCountsEmissionOnce |
| GoLD_rayt/include/IO/IORInterpolator.hpp:102-115 | The comment promises the closest k value within 1 nm, but the code takes the lower_bound entry whenever it is within 1 nm and looks at the entry before it only otherwise. | k entries at 499.5 nm and 500.9 nm and an n entry at 500 nm: the merge takes the k value at 500.9 nm, 0.9 nm away, over the one at 499.5 nm, 0.5 nm away. | Compare both neighbours and take the nearer one within 1 nm, the lower_bound entry on a tie. | not executed; the comment and the code disagree, and either may be the intent | IorTables.KForNotNearest | IorTables.KForNearestIsNearest |

