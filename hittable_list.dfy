// HittableList: a growable list of scene objects that reports the closest
// hit among them and the union of their bounds.
module HittableLists {
  import opened Types
  import opened Rays
  import opened Interaction
  import opened Aabb
  import opened Hittables

  class HittableList {
    var objects: seq<Hittable>

    constructor ()
      ensures objects == []
    {
      objects := [];
    }

    /** The list holding one object. */
    constructor FromObject(obj: Hittable)
      ensures objects == [obj]
    {
      objects := [obj];
    }

    /** Appends exactly one object at the end. */
    method Add(obj: Hittable)
      modifies this
      ensures objects == old(objects) + [obj]
    {
      objects := objects + [obj];
    }

    /** Removes every object. */
    method Clear()
      modifies this
      ensures objects == []
    {
      objects := [];
    }

    /**
     * The closest hit among the objects (see Hittables.ListClosestHit for
     * what this means for spheres).
     */
    method Hit(r: Ray, rec: SurfaceInteraction, sqrt: real -> real)
      returns (hit: bool, ray: Ray, out: SurfaceInteraction)
      requires Traceable(List(objects), r.d)
      ensures HitResult(hit, ray, out) == Trace(List(objects), r, rec, sqrt)
    {
      hit, ray, out := HitList(List(objects), r, rec, sqrt);
    }

    /**
     * The degenerate box at the origin for an empty list, otherwise the
     * union of all objects' bounds, which encloses each of them.
     */
    method Bounds() returns (b: AABB)
      ensures b == Hittables.Bounds(List(objects))
      ensures |objects| == 0 ==> b == ZeroBox
      ensures forall i :: 0 <= i < |objects| ==> Encloses(b, Hittables.Bounds(objects[i]))
    {
      if |objects| == 0 {
        return ZeroBox;
      }
      b := Hittables.Bounds(objects[0]);
      for i := 1 to |objects|
        invariant b == FoldBounds(List(objects), i)
      {
        b := Unite(b, Hittables.Bounds(objects[i]));
      }
      forall i | 0 <= i < |objects|
        ensures Encloses(b, Hittables.Bounds(objects[i]))
      {
        ListBoundsEnclose(List(objects), i);
      }
    }
  }
}
