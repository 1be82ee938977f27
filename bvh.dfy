// Construction of the bounding volume hierarchy over a range of the scene's
// object array: the centroid box, the split axis of largest centroid
// extent, the median split after sorting the range by centroid, and the
// node box.  The node's hit and bounds are part of Hittables.
module BvhBuild {
  import opened Types
  import opened Aabb
  import opened Hittables

  /** The centre of an object's bounds. */
  function Centroid(h: Hittable): Vec3
  {
    Center(Bounds(h))
  }

  /** The sort key: the centroid's coordinate on the axis. */
  function Key(h: Hittable, axis: Axis): real
  {
    Comp(Centroid(h), axis)
  }

  /**
   * The box of the centroids of s, folded with component-wise min and max.
   * (The source starts the fold from +-infinity; min(+inf, c) is c.)
   */
  function CentroidBox(s: seq<Hittable>): (b: AABB)
    requires |s| > 0
    ensures forall i :: 0 <= i < |s| ==> Contains(b, Centroid(s[i]))
  {
    if |s| == 1 then AABB(Centroid(s[0]), Centroid(s[0]))
    else
      var b := CentroidBox(s[..|s| - 1]);
      var r := AABB(MinV(b.min, Centroid(s[|s| - 1])), MaxV(b.max, Centroid(s[|s| - 1])));
      GrowCentroidBox(s, s[..|s| - 1], b, r);
      r
  }

  /** Growing the prefix's box by the last centroid gives a box that contains every centroid. */
  lemma GrowCentroidBox(s: seq<Hittable>, prefix: seq<Hittable>, b: AABB, r: AABB)
    requires |s| > 1 && prefix == s[..|s| - 1]
    requires forall i :: 0 <= i < |prefix| ==> Contains(b, Centroid(prefix[i]))
    requires r == AABB(MinV(b.min, Centroid(s[|s| - 1])), MaxV(b.max, Centroid(s[|s| - 1])))
    ensures forall i :: 0 <= i < |s| ==> Contains(r, Centroid(s[i]))
  {
    forall i | 0 <= i < |s|
      ensures Contains(r, Centroid(s[i]))
    {
      if i < |s| - 1 {
        assert prefix[i] == s[i];
        assert Contains(b, Centroid(s[i]));
      }
    }
  }

  /** The axis of largest extent; ties go to the lower axis (x, then y, then z). */
  function SplitAxis(e: Vec3): (axis: Axis)
    ensures Comp(e, axis) >= e.x && Comp(e, axis) >= e.y && Comp(e, axis) >= e.z
    ensures forall k: Axis :: k < axis ==> Comp(e, k) < Comp(e, axis)
  {
    var a: Axis := if e.y > e.x then 1 else 0;
    if e.z > Comp(e, a) then 2 else a
  }

  /** Keys are non-decreasing along s. */
  predicate SortedBy(s: seq<Hittable>, key: Hittable -> real)
  {
    forall i, j :: 0 <= i < j < |s| ==> key(s[i]) <= key(s[j])
  }

  /** s[lo..hi) is sorted by key. */
  predicate SortedRange(s: seq<Hittable>, lo: int, hi: int, key: Hittable -> real)
    requires 0 <= lo <= hi <= |s|
  {
    forall p, q :: lo <= p < q < hi ==> key(s[p]) <= key(s[q])
  }

  /**
   * The state of one insertion: s[lo..j) and s[j..i] are sorted and
   * nothing left of j has a larger key than anything right of j.
   */
  predicate Inserting(s: seq<Hittable>, lo: int, j: int, i: int, key: Hittable -> real)
    requires 0 <= lo <= j <= i < |s|
  {
    SortedRange(s, lo, j, key) && SortedRange(s, j, i + 1, key) &&
    forall p, q :: lo <= p < j < q <= i ==> key(s[p]) <= key(s[q])
  }

  /** Exchanging s[j-1] and s[j] when they are out of order moves the hole one step left. */
  lemma SwapStep(s: seq<Hittable>, lo: int, j: int, i: int, key: Hittable -> real)
    requires 0 <= lo < j <= i < |s| && Inserting(s, lo, j, i, key)
    requires key(s[j]) < key(s[j - 1])
    ensures Inserting(s[j - 1 := s[j]][j := s[j - 1]], lo, j - 1, i, key)
  {
  }

  /** The insertion ends once the moving element meets a smaller or equal key, or the start. */
  lemma InsertDone(s: seq<Hittable>, lo: int, j: int, i: int, key: Hittable -> real)
    requires 0 <= lo <= j <= i < |s| && Inserting(s, lo, j, i, key)
    requires j == lo || key(s[j - 1]) <= key(s[j])
    ensures SortedRange(s, lo, i + 1, key)
  {
  }

  /** Exchanges a[i] and a[j]. */
  method Swap(a: array<Hittable>, i: int, j: int)
    requires 0 <= i < a.Length && 0 <= j < a.Length
    modifies a
    ensures a[..] == old(a[..])[i := old(a[j])][j := old(a[i])]
    ensures multiset(a[..]) == multiset(old(a[..]))
  {
    a[i], a[j] := a[j], a[i];
  }

  /**
   * Moves a[i] left past every larger key: a[lo..i] sorted becomes
   * a[lo..i+1] sorted, by adjacent exchanges only.
   */
  method InsertOne(a: array<Hittable>, lo: int, i: int, key: Hittable -> real)
    requires 0 <= lo <= i < a.Length && SortedRange(a[..], lo, i, key)
    modifies a
    ensures SortedRange(a[..], lo, i + 1, key)
    ensures multiset(a[..]) == multiset(old(a[..]))
    ensures forall k :: 0 <= k < a.Length && (k < lo || i < k) ==> a[k] == old(a[k])
  {
    var j := i;
    while j > lo && key(a[j]) < key(a[j - 1])
      invariant lo <= j <= i
      invariant Inserting(a[..], lo, j, i, key)
      invariant multiset(a[..]) == multiset(old(a[..]))
      invariant forall k :: 0 <= k < a.Length && (k < lo || i < k) ==> a[k] == old(a[k])
    {
      SwapStep(a[..], lo, j, i, key);
      Swap(a, j - 1, j);
      j := j - 1;
    }
    InsertDone(a[..], lo, j, i, key);
  }

  /**
   * std::sort of a[lo..hi) by a key (the comparator is key(x) < key(y)),
   * as an insertion sort: the range ends sorted and permuted, everything
   * outside it untouched.
   */
  method SortRange(a: array<Hittable>, lo: int, hi: int, key: Hittable -> real)
    requires 0 <= lo <= hi <= a.Length
    modifies a
    ensures SortedBy(a[lo..hi], key)
    ensures multiset(a[lo..hi]) == multiset(old(a[lo..hi]))
    ensures a[..lo] == old(a[..lo]) && a[hi..] == old(a[hi..])
  {
    var i := lo;
    while i < hi
      invariant lo <= i <= hi
      invariant SortedRange(a[..], lo, i, key)
      invariant multiset(a[..]) == multiset(old(a[..]))
      invariant forall k :: 0 <= k < a.Length && (k < lo || hi <= k) ==> a[k] == old(a[k])
    {
      InsertOne(a, lo, i, key);
      i := i + 1;
    }
    assert a[..lo] == old(a[..lo]);
    assert a[hi..] == old(a[hi..]);
    RangeMultiset(a[..], old(a[..]), lo, hi);
  }

  /** Equal multisets with equal prefix and suffix have equal middles. */
  lemma RangeMultiset(s: seq<Hittable>, t: seq<Hittable>, lo: int, hi: int)
    requires 0 <= lo <= hi <= |s| == |t|
    requires multiset(s) == multiset(t) && s[..lo] == t[..lo] && s[hi..] == t[hi..]
    ensures multiset(s[lo..hi]) == multiset(t[lo..hi])
  {
    assert s == s[..lo] + s[lo..hi] + s[hi..];
    assert t == t[..lo] + t[lo..hi] + t[hi..];
    assert multiset(s) == multiset(s[..lo]) + multiset(s[lo..hi]) + multiset(s[hi..]);
    assert multiset(t) == multiset(t[..lo]) + multiset(t[lo..hi]) + multiset(t[hi..]);
    forall x
      ensures multiset(s[lo..hi])[x] == multiset(t[lo..hi])[x]
    {
      assert multiset(s)[x] == multiset(s[..lo])[x] + multiset(s[lo..hi])[x] + multiset(s[hi..])[x];
      assert multiset(t)[x] == multiset(t[..lo])[x] + multiset(t[lo..hi])[x] + multiset(t[hi..])[x];
    }
  }

  /** The centroid box of objects[start..end), by the source's loop. */
  method CentroidBoxOf(objects: array<Hittable>, start: int, end: int) returns (b: AABB)
    requires 0 <= start < end <= objects.Length
    ensures b == CentroidBox(objects[start..end])
  {
    var c0 := Centroid(objects[start]);
    var cmin, cmax := c0, c0;
    for i := start + 1 to end
      invariant AABB(cmin, cmax) == CentroidBox(objects[start..i])
    {
      var c := Centroid(objects[i]);
      assert objects[start..i + 1][..i - start] == objects[start..i];
      cmin := MinV(cmin, c);
      cmax := MaxV(cmax, c);
    }
    b := AABB(cmin, cmax);
  }

  /** The box encloses the bounds of every object in leaves. */
  ghost predicate EnclosesAll(box: AABB, leaves: seq<Hittable>)
  {
    forall x :: x in leaves ==> Encloses(box, Bounds(x))
  }

  /** Every object of s is itself well built (true of anything that is not a BVH node). */
  predicate AllWellBuilt(s: seq<Hittable>)
  {
    forall i :: 0 <= i < |s| ==> WellBuilt(s[i])
  }

  /**
   * The node built over a range of `span` objects sums up `leaves`, those
   * objects in the order the tree holds them: the node's box encloses each of
   * them, the node's leaves are theirs, the left child holds the first half,
   * and the node is well built whenever they are.
   */
  ghost predicate Summarizes(node: Hittable, leaves: seq<Hittable>, span: nat)
  {
    node.Bvh? && |leaves| == span &&
    EnclosesAll(node.box, leaves) && Leaves(node) == LeavesOf(leaves) &&
    (AllWellBuilt(leaves) ==> WellBuilt(node)) &&
    (span >= 2 ==> Leaves(node.left) == LeavesOf(leaves[..span / 2]))
  }

  /**
   * What the node built over `range` on `axis` is: its box is the bounds of its
   * children, a single object sits alone on the left, a pair is ordered by
   * key, a larger range splits into two subtrees with every key of the first
   * half at most every key of the second, and it summarizes `leaves`, which
   * hold the range's objects in tree order.
   */
  ghost predicate BuiltOver(node: Hittable, leaves: seq<Hittable>, range: seq<Hittable>, axis: Axis)
  {
    Summarizes(node, leaves, |range|) && node.splitAxis == axis &&
    multiset(leaves) == multiset(range) &&
    (node.right.None? ==> node.box == Bounds(node.left)) &&
    (node.right.Some? ==> node.box == Unite(Bounds(node.left), Bounds(node.right.value))) &&
    (|range| == 1 ==> node.left == range[0] && node.right.None?) &&
    (|range| == 2 ==>
      node.right.Some? &&
      (Key(range[0], axis) < Key(range[1], axis) ==> node.left == range[0] && node.right.value == range[1]) &&
      (Key(range[0], axis) >= Key(range[1], axis) ==> node.left == range[1] && node.right.value == range[0])) &&
    (|range| >= 3 ==>
      node.left.Bvh? && node.right.Some? && node.right.value.Bvh? &&
      forall p, q :: 0 <= p < |range| / 2 <= q < |leaves| ==> Key(leaves[p], axis) <= Key(leaves[q], axis))
  }

  /**
   * Builds the node for objects[start..end), reordering only that range, and
   * choosing the split axis from the extent of the range's centroids.
   */
  method Build(objects: array<Hittable>, start: int, end: int) returns (node: Hittable, ghost leaves: seq<Hittable>)
    requires 0 <= start < end <= objects.Length
    modifies objects
    decreases end - start, 2
    ensures objects[..start] == old(objects[..start]) && objects[end..] == old(objects[end..])
    ensures multiset(objects[start..end]) == multiset(old(objects[start..end]))
    ensures end - start <= 2 ==> objects[start..end] == old(objects[start..end])
    ensures BuiltOver(node, leaves, old(objects[start..end]), SplitAxis(Extent(CentroidBox(old(objects[start..end])))))
  {
    ghost var range := objects[start..end];
    var span := end - start;
    var centroidBox := CentroidBoxOf(objects, start, end);
    var axis := ChooseAxis(Extent(centroidBox));
    assert objects[start..end] == range && axis == SplitAxis(Extent(CentroidBox(range)));

    if span == 1 {
      assert range == [objects[start]];
      node, leaves := LeafNode(objects[start], axis);
    } else if span == 2 {
      assert range == [objects[start], objects[start + 1]];
      node, leaves := PairNode(objects[start], objects[start + 1], axis);
    } else {
      node, leaves := SplitAndRecurse(objects, start, end, axis);
    }
    assert BuiltOver(node, leaves, range, axis);
  }

  /** The node over a single object: that object as its only child, its bounds as the box. */
  method LeafNode(o: Hittable, axis: Axis) returns (node: Hittable, ghost leaves: seq<Hittable>)
    ensures node == Bvh(o, None, Bounds(o), axis) && leaves == [o]
    ensures BuiltOver(node, leaves, [o], axis)
  {
    node, leaves := Bvh(o, None, Bounds(o), axis), [o];
    SingleLeaves(o);
    assert Encloses(Bounds(o), Bounds(o));
  }

  /** The node over two objects: the one with the smaller key first, the union of their bounds as the box. */
  method PairNode(a: Hittable, b: Hittable, axis: Axis) returns (node: Hittable, ghost leaves: seq<Hittable>)
    ensures BuiltOver(node, leaves, [a, b], axis)
    ensures leaves == [node.left, node.right.value]
  {
    var l, r := OrderPair(a, b, axis);
    node, leaves := Bvh(l, Some(r), Unite(Bounds(l), Bounds(r)), axis), [l, r];
    PairBuilt(a, b, l, r, axis);
  }

  /** The node over the pair as OrderPair orders it is the node built over the pair. */
  lemma PairBuilt(a: Hittable, b: Hittable, l: Hittable, r: Hittable, axis: Axis)
    requires Key(a, axis) < Key(b, axis) ==> l == a && r == b
    requires Key(a, axis) >= Key(b, axis) ==> l == b && r == a
    ensures BuiltOver(Bvh(l, Some(r), Unite(Bounds(l), Bounds(r)), axis), [l, r], [a, b], axis)
  {
    PairSummarized(l, r, axis);
    assert multiset([l, r]) == multiset([a, b]);
  }

  /** The node over an ordered pair summarizes the pair. */
  lemma PairSummarized(l: Hittable, r: Hittable, axis: Axis)
    ensures Summarizes(Bvh(l, Some(r), Unite(Bounds(l), Bounds(r)), axis), [l, r], 2)
  {
    PairEnclosed(l, r, l, r);
    PairLeaves(l, r);
  }

  /**
   * A tree built over spheres is well built, its leaves are those spheres
   * reordered, and so it meets the requirements of the BVH hit lemmas.
   */
  lemma BuiltOverSpheres(node: Hittable, leaves: seq<Hittable>, range: seq<Hittable>, axis: Axis)
    requires BuiltOver(node, leaves, range, axis) && AllSpheres(range)
    ensures WellBuilt(node) && AllSpheres(Leaves(node))
    ensures multiset(Leaves(node)) == multiset(range)
  {
    forall i | 0 <= i < |leaves|
      ensures leaves[i].Sphere? && leaves[i].shape.radius != 0.0
    {
      assert leaves[i] in multiset(range);
    }
    LeavesOfSpheres(leaves);
  }

  /** Spheres are their own leaves, and well built. */
  lemma {:induction false} LeavesOfSpheres(s: seq<Hittable>)
    requires AllSpheres(s)
    ensures LeavesOf(s) == s && AllWellBuilt(s)
  {
    if s != [] {
      LeavesOfSpheres(s[1..]);
      assert s == [s[0]] + s[1..];
    }
  }

  /** The leaves of a single object, and whether it is well built. */
  lemma SingleLeaves(o: Hittable)
    ensures LeavesOf([o]) == Leaves(o)
    ensures AllWellBuilt([o]) <==> WellBuilt(o)
  {
    assert LeavesOf([o]) == Leaves(o) + LeavesOf([]);
  }

  /** The leaves of two objects side by side, and whether both are well built. */
  lemma PairLeaves(l: Hittable, r: Hittable)
    ensures LeavesOf([l, r]) == Leaves(l) + Leaves(r) && LeavesOf([l, r][..1]) == Leaves(l)
    ensures AllWellBuilt([l, r]) <==> WellBuilt(l) && WellBuilt(r)
  {
    assert [l, r][..1] == [l] && [l, r][1..] == [r];
    SingleLeaves(l);
    SingleLeaves(r);
  }

  /** The union of two objects' bounds encloses both, in either order. */
  lemma PairEnclosed(l: Hittable, r: Hittable, a: Hittable, b: Hittable)
    requires (l == a && r == b) || (l == b && r == a)
    ensures EnclosesAll(Unite(Bounds(l), Bounds(r)), [a, b])
  {
  }

  /** The source's two comparisons choosing the split axis. */
  method ChooseAxis(e: Vec3) returns (axis: Axis)
    ensures axis == SplitAxis(e)
  {
    axis := 0;
    if e.y > e.x {
      axis := 1;
    }
    if e.z > (if axis == 0 then e.x else e.y) {
      axis := 2;
    }
  }

  /** The two children of a span-2 node: the one with the smaller key on the axis first, the second on a tie. */
  method OrderPair(a: Hittable, b: Hittable, axis: Axis) returns (left: Hittable, right: Hittable)
    ensures Key(a, axis) < Key(b, axis) ==> left == a && right == b
    ensures Key(a, axis) >= Key(b, axis) ==> left == b && right == a
    ensures Key(left, axis) <= Key(right, axis)
  {
    if Key(a, axis) < Key(b, axis) {
      left, right := a, b;
    } else {
      left, right := b, a;
    }
  }

  /**
   * The span >= 3 case: sort the range by key on the axis, then build the
   * halves [start, mid) and [mid, end) with mid = start + span/2.
   */
  method SplitAndRecurse(objects: array<Hittable>, start: int, end: int, axis: Axis)
    returns (node: Hittable, ghost leaves: seq<Hittable>)
    requires 0 <= start && start + 3 <= end <= objects.Length
    modifies objects
    decreases end - start, 1
    ensures objects[..start] == old(objects[..start]) && objects[end..] == old(objects[end..])
    ensures multiset(objects[start..end]) == multiset(old(objects[start..end]))
    ensures BuiltOver(node, leaves, old(objects[start..end]), axis)
  {
    ghost var initial := objects[..];
    SortRange(objects, start, end, h => Key(h, axis));
    var mid := start + (end - start) / 2;
    ghost var sorted := objects[..];
    ghost var ll, rl;
    var l, r;
    l, r, ll, rl := BuildHalves(objects, start, mid, end);
    node := Bvh(l, Some(r), Unite(Bounds(l), Bounds(r)), axis);
    leaves := ll + rl;
    SortFrame(initial, sorted, objects[..], start, mid, end);
    SplitBuilt(l, r, ll, rl, sorted, start, mid, end, initial[start..end], axis);
  }

  /** The node over the two halves of the sorted range is the node built over the range. */
  lemma SplitBuilt(l: Hittable, r: Hittable, ll: seq<Hittable>, rl: seq<Hittable>,
                   sorted: seq<Hittable>, start: int, mid: int, end: int, range: seq<Hittable>, axis: Axis)
    requires 0 <= start && start + 3 <= end <= |sorted| && mid == start + (end - start) / 2
    requires |range| == end - start && SortedBy(sorted[start..end], h => Key(h, axis))
    requires multiset(sorted[start..mid]) + multiset(sorted[mid..end]) == multiset(range)
    requires multiset(ll) == multiset(sorted[start..mid]) && multiset(rl) == multiset(sorted[mid..end])
    requires l.Bvh? && r.Bvh?
    requires EnclosesAll(Bounds(l), ll) && EnclosesAll(Bounds(r), rl)
    requires Leaves(l) == LeavesOf(ll) && Leaves(r) == LeavesOf(rl)
    requires (AllWellBuilt(ll) ==> WellBuilt(l)) && (AllWellBuilt(rl) ==> WellBuilt(r))
    ensures BuiltOver(Bvh(l, Some(r), Unite(Bounds(l), Bounds(r)), axis), ll + rl, range, axis)
  {
    PartitionKeys(sorted, start, mid, end, axis, ll, rl);
    JoinHalves(l, r, ll, rl, axis);
    assert |ll| + |rl| == |range| && mid - start == |range| / 2;
    assert multiset(ll + rl) == multiset(range);
  }

  /** The node over two built halves summarizes the two halves' leaves, the first half's first. */
  lemma JoinHalves(l: Hittable, r: Hittable, ll: seq<Hittable>, rl: seq<Hittable>, axis: Axis)
    requires l.Bvh? && r.Bvh? && |ll| == (|ll| + |rl|) / 2 && |rl| > 0
    requires EnclosesAll(Bounds(l), ll) && EnclosesAll(Bounds(r), rl)
    requires Leaves(l) == LeavesOf(ll) && Leaves(r) == LeavesOf(rl)
    requires (AllWellBuilt(ll) ==> WellBuilt(l)) && (AllWellBuilt(rl) ==> WellBuilt(r))
    ensures Summarizes(Bvh(l, Some(r), Unite(Bounds(l), Bounds(r)), axis), ll + rl, |ll| + |rl|)
  {
    var leaves := ll + rl;
    assert leaves[..(|ll| + |rl|) / 2] == ll;
    LeavesOfAppend(ll, rl);
    assert AllWellBuilt(leaves) ==> AllWellBuilt(ll) && AllWellBuilt(rl) by {
      if AllWellBuilt(leaves) {
        assert forall i :: 0 <= i < |ll| ==> leaves[i] == ll[i];
        assert forall i :: 0 <= i < |rl| ==> leaves[|ll| + i] == rl[i];
      }
    }
    forall x | x in leaves
      ensures Encloses(Unite(Bounds(l), Bounds(r)), Bounds(x))
    {
      if x in ll {
        EnclosesTransitive(Unite(Bounds(l), Bounds(r)), Bounds(l), Bounds(x));
      } else {
        EnclosesTransitive(Unite(Bounds(l), Bounds(r)), Bounds(r), Bounds(x));
      }
    }
  }

  /** The two recursive builds, over [start, mid) and then [mid, end). */
  method BuildHalves(objects: array<Hittable>, start: int, mid: int, end: int)
    returns (l: Hittable, r: Hittable, ghost ll: seq<Hittable>, ghost rl: seq<Hittable>)
    requires 0 <= start < mid < end <= objects.Length
    modifies objects
    decreases end - start, 0
    ensures l.Bvh? && r.Bvh?
    ensures objects[..start] == old(objects[..start]) && objects[end..] == old(objects[end..])
    ensures multiset(objects[start..end]) == multiset(old(objects[start..end]))
    ensures multiset(ll) == multiset(old(objects[start..mid]))
    ensures multiset(rl) == multiset(old(objects[mid..end]))
    ensures EnclosesAll(Bounds(l), ll) && EnclosesAll(Bounds(r), rl)
    ensures Leaves(l) == LeavesOf(ll) && Leaves(r) == LeavesOf(rl)
    ensures (AllWellBuilt(ll) ==> WellBuilt(l)) && (AllWellBuilt(rl) ==> WellBuilt(r))
  {
    ghost var before := objects[..];
    l, ll := Build(objects, start, mid);
    ghost var afterLeft := objects[..];
    r, rl := Build(objects, mid, end);
    HalvesFrame(before, afterLeft, objects[..], start, mid, end);
  }

  /** How the two recursive builds compose on the array: each keeps what lies outside its own range. */
  lemma HalvesFrame(before: seq<Hittable>, afterLeft: seq<Hittable>, final: seq<Hittable>, start: int, mid: int, end: int)
    requires 0 <= start < mid < end <= |before| == |afterLeft| == |final|
    requires afterLeft[..start] == before[..start] && afterLeft[mid..] == before[mid..]
    requires multiset(afterLeft[start..mid]) == multiset(before[start..mid])
    requires final[..mid] == afterLeft[..mid] && final[end..] == afterLeft[end..]
    requires multiset(final[mid..end]) == multiset(afterLeft[mid..end])
    ensures final[..start] == before[..start] && final[end..] == before[end..]
    ensures multiset(final[start..end]) == multiset(before[start..end])
    ensures afterLeft[mid..end] == before[mid..end]
  {
    assert final[..start] == final[..mid][..start];
    assert afterLeft[..start] == afterLeft[..mid][..start];
    assert afterLeft[end..] == afterLeft[mid..][end - mid..];
    assert before[end..] == before[mid..][end - mid..];
    assert afterLeft[mid..end] == afterLeft[mid..][..end - mid];
    assert before[mid..end] == before[mid..][..end - mid];
    assert final[start..mid] == final[..mid][start..];
    assert afterLeft[start..mid] == afterLeft[..mid][start..];
    assert final[start..end] == final[start..mid] + final[mid..end];
    assert before[start..end] == before[start..mid] + before[mid..end];
  }

  /** The sort followed by the builds keeps the outside of the range and the multiset inside it. */
  lemma SortFrame(initial: seq<Hittable>, sorted: seq<Hittable>, final: seq<Hittable>, start: int, mid: int, end: int)
    requires 0 <= start <= mid <= end <= |initial| == |sorted| == |final|
    requires sorted[..start] == initial[..start] && sorted[end..] == initial[end..]
    requires multiset(sorted[start..end]) == multiset(initial[start..end])
    requires final[..start] == sorted[..start] && final[end..] == sorted[end..]
    requires multiset(final[start..end]) == multiset(sorted[start..end])
    ensures final[..start] == initial[..start] && final[end..] == initial[end..]
    ensures multiset(final[start..end]) == multiset(initial[start..end])
    ensures multiset(sorted[start..mid]) + multiset(sorted[mid..end]) == multiset(initial[start..end])
  {
    assert sorted[start..end] == sorted[start..mid] + sorted[mid..end];
  }

  /**
   * After the sort, every leaf of the left half has a key no greater than
   * every leaf of the right half.
   */
  lemma PartitionKeys(sorted: seq<Hittable>, start: int, mid: int, end: int, axis: Axis,
                      ll: seq<Hittable>, rl: seq<Hittable>)
    requires 0 <= start <= mid <= end <= |sorted|
    requires SortedBy(sorted[start..end], h => Key(h, axis))
    requires multiset(ll) == multiset(sorted[start..mid]) && multiset(rl) == multiset(sorted[mid..end])
    ensures |ll| == mid - start && |rl| == end - mid
    ensures forall p, q :: 0 <= p < mid - start <= q < |ll + rl| ==> Key((ll + rl)[p], axis) <= Key((ll + rl)[q], axis)
  {
    assert |ll| == |multiset(ll)| == |multiset(sorted[start..mid])| == mid - start;
    assert |rl| == |multiset(rl)| == |multiset(sorted[mid..end])| == end - mid;
    forall p, q | 0 <= p < mid - start <= q < |ll + rl|
      ensures Key((ll + rl)[p], axis) <= Key((ll + rl)[q], axis)
    {
      var x, y := ll[p], rl[q - |ll|];
      assert x in multiset(sorted[start..mid]);
      assert y in multiset(sorted[mid..end]);
      var p' :| start <= p' < mid && sorted[p'] == x;
      var q' :| mid <= q' < end && sorted[q'] == y;
      assert sorted[start..end][p' - start] == x && sorted[start..end][q' - start] == y;
    }
  }
}
