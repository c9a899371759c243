/**
  Bounding boxes and rings (src/polygon.h): the parts of the header whose
  bodies are given there. Coordinates are only compared and copied, so they
  are modelled as `real`.
*/
module Polygon {

  datatype Vertex = Vertex(x: real, y: real)

  // ---------------------------------------------------------------------
  // Bounding boxes
  // ---------------------------------------------------------------------

  /** The value held by a `Bbox`: its four extents and its `empty` flag. */
  datatype Box = Box(minX: real, maxX: real, minY: real, maxY: real, empty: bool)

  /** The state a default-constructed `Bbox` is in. */
  const EmptyBox: Box := Box(0.0, 0.0, 0.0, 0.0, true)

  /** The extents of a non-empty box are ordered. */
  predicate WellFormed(b: Box) {
    b.empty || (b.minX <= b.maxX && b.minY <= b.maxY)
  }

  /** `v` lies in the closed rectangle of a non-empty box. */
  predicate Contains(b: Box, v: Vertex) {
    !b.empty && b.minX <= v.x <= b.maxX && b.minY <= v.y <= b.maxY
  }

  /** Every point of `inner` lies in `outer`. */
  predicate Encloses(outer: Box, inner: Box) {
    inner.empty ||
    (!outer.empty && outer.minX <= inner.minX && inner.maxX <= outer.maxX
                  && outer.minY <= inner.minY && inner.maxY <= outer.maxY)
  }

  /**
    The box after folding in one vertex: an empty box becomes the single
    point, a non-empty one grows along each axis where the vertex lies outside.
  */
  function Expanded(b: Box, v: Vertex): (r: Box)
    ensures !r.empty && Contains(r, v)
    ensures WellFormed(b) ==> WellFormed(r)
    ensures WellFormed(b) ==> Encloses(r, b)
    ensures Contains(b, v) ==> r == b
  {
    if b.empty then Box(v.x, v.x, v.y, v.y, false)
    else Box(if v.x < b.minX then v.x else b.minX,
             if v.x > b.maxX then v.x else b.maxX,
             if v.y < b.minY then v.y else b.minY,
             if v.y > b.maxY then v.y else b.maxY,
             false)
  }

  /** The box after folding in each vertex of `pts` in turn. */
  function ExpandedAll(b: Box, pts: seq<Vertex>): Box
    decreases |pts|
  {
    if pts == [] then b else ExpandedAll(Expanded(b, pts[0]), pts[1..])
  }

  /**
    Folding any sequence of vertices into a well-formed box gives a
    well-formed box that holds every one of them and everything the old box
    held.
  */
  lemma {:induction false} ExpandedAllContains(b: Box, pts: seq<Vertex>)
    requires WellFormed(b)
    ensures WellFormed(ExpandedAll(b, pts)) && Encloses(ExpandedAll(b, pts), b)
    ensures forall i :: 0 <= i < |pts| ==> Contains(ExpandedAll(b, pts), pts[i])
    decreases |pts|
  {
    if pts != [] {
      var b' := Expanded(b, pts[0]);
      ExpandedAllContains(b', pts[1..]);
      var r := ExpandedAll(b', pts[1..]);
      assert r == ExpandedAll(b, pts);
      forall i | 0 <= i < |pts| ensures Contains(r, pts[i]) {
        if i > 0 {
          assert pts[i] == pts[1..][i - 1];
        }
      }
    }
  }

  /** The test `is_disjoint`: an empty box is disjoint from everything. */
  predicate IsDisjoint(b1: Box, b2: Box) {
    b1.empty || b2.empty ||
    b1.minX > b2.maxX ||
    b1.minY > b2.maxY ||
    b2.minX > b1.maxX ||
    b2.minY > b1.maxY
  }

  lemma IsDisjointSymmetric(b1: Box, b2: Box)
    ensures IsDisjoint(b1, b2) == IsDisjoint(b2, b1)
  {
  }

  /** A point lying in the overlap of two boxes that are not disjoint. */
  function OverlapCorner(b1: Box, b2: Box): (v: Vertex)
    requires WellFormed(b1) && WellFormed(b2) && !IsDisjoint(b1, b2)
    ensures Contains(b1, v) && Contains(b2, v)
  {
    Vertex(if b1.minX < b2.minX then b2.minX else b1.minX,
           if b1.minY < b2.minY then b2.minY else b1.minY)
  }

  /**
    For well-formed boxes, `is_disjoint` is exact: two boxes are disjoint
    exactly when no point lies in both.
  */
  lemma DisjointIffNoCommonPoint(b1: Box, b2: Box)
    requires WellFormed(b1) && WellFormed(b2)
    ensures IsDisjoint(b1, b2) <==> forall v :: !(Contains(b1, v) && Contains(b2, v))
  {
    if !IsDisjoint(b1, b2) {
      var v := OverlapCorner(b1, b2);
      assert Contains(b1, v) && Contains(b2, v);
    }
  }

  /** A non-empty well-formed box is never disjoint from itself. */
  lemma NotDisjointFromItself(b: Box)
    requires WellFormed(b) && !b.empty
    ensures !IsDisjoint(b, b)
  {
  }

  /** A bounding box accumulator, updated in place by `Expand`. */
  class Bbox {
    var minX: real
    var maxX: real
    var minY: real
    var maxY: real
    var empty: bool

    function Value(): Box
      reads this
    {
      Box(minX, maxX, minY, maxY, empty)
    }

    /** A fresh box is empty. */
    constructor ()
      ensures Value() == EmptyBox
      ensures WellFormed(Value())
    {
      minX, maxX := 0.0, 0.0;
      minY, maxY := 0.0, 0.0;
      empty := true;
    }

    /** Fold `v` into the box. */
    method Expand(v: Vertex)
      modifies this
      ensures Value() == Expanded(old(Value()), v)
      ensures !empty && Contains(Value(), v)
      ensures WellFormed(old(Value())) ==> WellFormed(Value()) && Encloses(Value(), old(Value()))
    {
      if empty {
        empty := false;
        minX, maxX := v.x, v.x;
        minY, maxY := v.y, v.y;
      } else {
        if v.x < minX { minX := v.x; }
        if v.y < minY { minY := v.y; }
        if v.x > maxX { maxX := v.x; }
        if v.y > maxY { maxY := v.y; }
      }
    }
  }

  // ---------------------------------------------------------------------
  // Rings
  // ---------------------------------------------------------------------

  /** The vertices in opposite order. */
  function Reversed(s: seq<Vertex>): seq<Vertex> {
    if s == [] then [] else Reversed(s[1..]) + [s[0]]
  }

  lemma {:induction false} ReversedAt(s: seq<Vertex>, k: nat)
    requires k < |s|
    ensures |Reversed(s)| == |s| && Reversed(s)[k] == s[|s| - 1 - k]
  {
    ReversedLength(s[1..]);
    if k < |s| - 1 {
      ReversedAt(s[1..], k);
    }
  }

  lemma {:induction false} ReversedLength(s: seq<Vertex>)
    ensures |Reversed(s)| == |s|
  {
    if s != [] {
      ReversedLength(s[1..]);
    }
  }

  /** Reversing twice restores the vertex order. */
  lemma ReversedInvolution(s: seq<Vertex>)
    ensures Reversed(Reversed(s)) == s
  {
    ReversedLength(s);
    ReversedLength(Reversed(s));
    forall k | 0 <= k < |s| ensures Reversed(Reversed(s))[k] == s[k] {
      ReversedAt(Reversed(s), k);
      ReversedAt(s, |s| - 1 - k);
    }
  }

  /** Reversing keeps every vertex, with its multiplicity. */
  lemma {:induction false} ReversedPermutes(s: seq<Vertex>)
    ensures multiset(Reversed(s)) == multiset(s)
  {
    if s != [] {
      ReversedPermutes(s[1..]);
      assert s == [s[0]] + s[1..];
    }
  }

  /**
    A polygon ring: an implicitly closed vertex sequence, whether it is a
    hole, and the index of the outer ring a hole belongs to (-1 for none).
  */
  class Ring {
    var pts: seq<Vertex>
    var isHole: bool
    var parentId: int

    /** A default ring: no vertices, not a hole, no parent. */
    constructor ()
      ensures pts == [] && !isHole && parentId == -1
    {
      pts := [];
      isHole := false;
      parentId := -1;
    }

    /** Reverse the vertex order in place, swapping from both ends inward. */
    method Reverse()
      modifies this
      ensures pts == Reversed(old(pts))
      ensures isHole == old(isHole) && parentId == old(parentId)
    {
      ghost var s := pts;
      var n := |pts|;
      var i := 0;
      while i < n / 2
        invariant 0 <= i <= n / 2 && |pts| == n
        invariant forall k :: 0 <= k < i ==> pts[k] == s[n - 1 - k] && pts[n - 1 - k] == s[k]
        invariant forall k :: i <= k < n - i ==> pts[k] == s[k]
        invariant isHole == old(isHole) && parentId == old(parentId)
      {
        pts := pts[i := pts[n - 1 - i]][n - 1 - i := pts[i]];
        i := i + 1;
      }
      ReversedLength(s);
      forall k | 0 <= k < n ensures pts[k] == Reversed(s)[k] {
        ReversedAt(s, k);
      }
    }

    /** A new ring with this ring's hole flag and parent, and no vertices. */
    method CopyMetadata() returns (ret: Ring)
      ensures fresh(ret)
      ensures ret.pts == [] && ret.isHole == isHole && ret.parentId == parentId
    {
      ret := new Ring();
      ret.isHole := isHole;
      ret.parentId := parentId;
    }
  }
}
