/**
 * BezierCanalSurface: a canal surface whose spine is a Bezier curve on [0, 1], with a
 * lazily computed bounding box guarded by the flag bbSet.
 *
 * Curves, radius functors and boxes are external objects; they are recorded here as
 * terms saying how they were built (from which curve, clipped to which interval,
 * extended by which margin), so that the state transitions of the class are exact
 * while the geometry stays abstract.
 */
module BezierSurface {
  import opened Outcomes

  /** A Bezier spine curve: default (zero) curve, built from components or control points, or clipped. */
  datatype Spine<C, P> =
    | ZeroCurve
    | ComponentCurve(components: seq<C>)
    | ControlPointCurve(points: seq<P>)
    | ClippedCurve(inner: Spine<C, P>, lo: real, hi: real)

  /** A radius functor: default, given by the caller, or clipped along a spine curve. */
  datatype Radius<C, P, RadF> =
    | ZeroRadius
    | Given(functor: RadF)
    | ClippedRadius(inner: Radius<C, P, RadF>, lo: real, hi: real, along: Spine<C, P>)

  /** The margin BoundingBox::extend adds: a constant in every component, or the maximum radius. */
  datatype Margin<C, P, RadF> =
    | Constant(value: real)
    | MaxRadius(radius: Radius<C, P, RadF>)

  /** A bounding box: never computed, the spine curve's box at a subdivision depth, or an extension. */
  datatype Box<C, P, RadF> =
    | NoBox
    | SpineBox(spine: Spine<C, P>, depth: nat)
    | Extended(inner: Box<C, P, RadF>, factor: real, margin: Margin<C, P, RadF>)

  datatype ClipError = MalformedInterval
  datatype BoxError = BoxNotUpdated

  /**
   * The box updateBoundingBox computes: the spine's box at the given subdivision depth,
   * grown by the maximum radius in every component, then by 2.5% but at least 1e-3.
   */
  function SurfaceBox<C, P, RadF>(spine: Spine<C, P>, radius: Radius<C, P, RadF>, depth: nat): Box<C, P, RadF>
  {
    Extended(Extended(SpineBox(spine, depth), 0.0, MaxRadius(radius)), 0.025, Constant(0.001))
  }

  class BezierCanalSurface<C, P, RadF> {
    /** BezierCanalSurface::spine_curve, the Bezier spine. */
    var spine: Spine<C, P>
    /** The base class's own copy of the spine curve, which generateMesh evaluates. */
    var baseSpine: Spine<C, P>
    var radius: Radius<C, P, RadF>
    var t0: real
    var t1: real
    var bb: Box<C, P, RadF>
    var bbSet: bool

    /**
     * Both spine copies agree, and the domain is [0, 1], the domain of every Bezier curve
     * (clipping reparametrizes the curve onto [0, 1] again).
     */
    ghost predicate Valid()
      reads this
    {
      baseSpine == spine && t0 == 0.0 && t1 == 1.0
    }

    /** Default constructor: zero curve and radius, domain [0, 1], no box yet. */
    constructor ()
      ensures Valid() && !bbSet
      ensures spine == ZeroCurve && radius == ZeroRadius && bb == NoBox
    {
      spine, baseSpine := ZeroCurve, ZeroCurve;
      radius := ZeroRadius;
      t0, t1 := 0.0, 1.0;
      bb, bbSet := NoBox, false;
    }

    /** From a Bezier curve and a radius functor; the domain is the curve's, [0, 1]. */
    constructor FromCurve(curve: Spine<C, P>, r: RadF)
      ensures Valid() && !bbSet
      ensures spine == curve && radius == Given(r) && bb == NoBox
    {
      spine, baseSpine := curve, curve;
      radius := Given(r);
      t0, t1 := 0.0, 1.0;
      bb, bbSet := NoBox, false;
    }

    /** From the three Bernstein component polynomials and a radius functor. */
    constructor FromComponents(components: seq<C>, r: RadF)
      requires |components| == 3
      ensures Valid() && !bbSet
      ensures spine == ComponentCurve(components) && radius == Given(r) && bb == NoBox
    {
      spine, baseSpine := ComponentCurve(components), ComponentCurve(components);
      radius := Given(r);
      t0, t1 := 0.0, 1.0;
      bb, bbSet := NoBox, false;
    }

    /** From control points and a radius functor. */
    constructor FromControlPoints(points: seq<P>, r: RadF)
      ensures Valid() && !bbSet
      ensures spine == ControlPointCurve(points) && radius == Given(r) && bb == NoBox
    {
      spine, baseSpine := ControlPointCurve(points), ControlPointCurve(points);
      radius := Given(r);
      t0, t1 := 0.0, 1.0;
      bb, bbSet := NoBox, false;
    }

    /** Copy constructor: copies the spine, radius, domain, the box and the flag. */
    constructor Copy(delta: BezierCanalSurface<C, P, RadF>)
      requires delta.Valid()
      ensures Valid()
      ensures spine == delta.spine && radius == delta.radius
      ensures bb == delta.bb && bbSet == delta.bbSet
    {
      spine, baseSpine := delta.spine, delta.baseSpine;
      radius := delta.radius;
      t0, t1 := delta.t0, delta.t1;
      bb, bbSet := delta.bb, delta.bbSet;
    }

    /** Assignment: every field of delta, the box and the flag included. */
    method Assign(delta: BezierCanalSurface<C, P, RadF>)
      requires delta.Valid()
      modifies this
      ensures Valid()
      ensures spine == old(delta.spine) && radius == old(delta.radius)
      ensures bb == old(delta.bb) && bbSet == old(delta.bbSet)
    {
      spine, baseSpine := delta.spine, delta.baseSpine;
      radius := delta.radius;
      t0, t1 := delta.t0, delta.t1;
      bb, bbSet := delta.bb, delta.bbSet;
    }

    /**
     * clipToInterval(lo, hi). A malformed interval (lo > hi) fails and changes nothing.
     * Otherwise the radius is clipped first, along the spine as it was before clipping,
     * then the spine, and the base-class spine is synced to the clipped curve. The domain
     * fields, the box and the flag are left as they were.
     */
    method ClipToInterval(lo: real, hi: real) returns (r: Outcome<ClipError>)
      requires Valid()
      modifies this
      ensures Valid()
      ensures r == (if lo <= hi then Pass else Fail(MalformedInterval))
      ensures lo <= hi ==>
        && radius == ClippedRadius(old(radius), lo, hi, old(spine))
        && spine == ClippedCurve(old(spine), lo, hi)
      ensures lo > hi ==> spine == old(spine) && radius == old(radius)
      ensures bb == old(bb) && bbSet == old(bbSet)
    {
      if lo <= hi {
        // the radius needs the old spine to find the radii at lo and hi
        radius := ClippedRadius(radius, lo, hi, spine);
        spine := ClippedCurve(spine, lo, hi);
        baseSpine := spine;
        r := Pass;
      } else {
        r := Fail(MalformedInterval);
      }
    }

    /** updateBoundingBox(depth): recomputes the box from the current spine and radius. */
    method UpdateBoundingBox(depth: nat)
      requires Valid()
      modifies this
      ensures Valid() && bbSet
      ensures bb == SurfaceBox(spine, radius, depth)
      ensures spine == old(spine) && radius == old(radius)
    {
      bb := SurfaceBox(spine, radius, depth);
      bbSet := true;
    }

    /** getBoundingBox: the stored box, or a failure when it was never computed. */
    function GetBoundingBox(): (r: Result<Box<C, P, RadF>, BoxError>)
      reads this
      ensures r.Success? <==> bbSet
      ensures r.Success? ==> r.value == bb
      ensures r.Failure? ==> r.error == BoxNotUpdated
    {
      if bbSet then Success(bb) else Failure(BoxNotUpdated)
    }
  }
}
