/**
 * CanalSurface and its ring-mesh generator (CanalSurface::generateMesh).
 *
 * The mesher samples the spine parameter, places one ring of n vertices per sample,
 * joins consecutive rings with a strip of n quads and closes the tube with a triangle
 * fan around a centroid vertex at each end. The geometry (positions, frames, arc
 * length) is abstract: a vertex is recorded as the ring parameter, the angular index
 * and whether the ring carries the half-step angular shift.
 */
module RingMesh {
  import opened Outcomes
  import opened MeshSink
  import Sampling

  datatype MeshError = StartRingSizeMismatch

  /** Which of the output pointers end_circle_offset, end_circle_its, closing_vertex_it are non-null. */
  datatype ChainRequest = ChainRequest(wantEndOffset: bool, wantEndRing: bool, wantEndCap: bool)

  /** What generateMesh writes through the non-null output pointers. */
  datatype Chain = Chain(endOffset: Option<bool>, endRing: Option<seq<nat>>, endCap: Option<nat>)

  // ---------------------------------------------------------------------------------
  // Offset parity
  // ---------------------------------------------------------------------------------

  /**
   * Whether ring i is drawn at phi_0 + dphi/2 (true) or at phi_0 (false). With a
   * shifted start, even rings are shifted; otherwise odd rings are; in crease mode
   * no ring is.
   */
  function RingShifted(i: nat, startOffset: bool, preserveCreaseEdges: bool): bool {
    if startOffset then
      !preserveCreaseEdges && i % 2 == 0
    else
      !(preserveCreaseEdges || i % 2 == 0)
  }

  /** The end_circle_offset flag: start offset XOR "the number of rings is even". */
  function EndOffset(startOffset: bool, ntsegments: nat): bool {
    startOffset != ((ntsegments + 1) % 2 == 0)
  }

  /** A freshly generated start ring forces the start offset to false. */
  function EffectiveStartOffset(startOffset: bool, startRing: Option<seq<nat>>): bool {
    if startRing.None? then false else startOffset
  }

  // ---------------------------------------------------------------------------------
  // Rings and faces
  // ---------------------------------------------------------------------------------

  /** The handles of n vertices inserted one after the other from handle base on. */
  function RingHandles(base: nat, n: nat): (ring: seq<nat>)
    ensures |ring| == n && forall j :: 0 <= j < n ==> ring[j] == base + j
  {
    seq(n, j requires 0 <= j < n => base + j)
  }

  /** The vertices of one ring at parameter t. */
  function RingVertices(t: real, n: nat, shifted: bool): (vs: seq<Vertex>)
    ensures |vs| == n
  {
    seq(n, j requires 0 <= j < n => RingVertex(t, j, shifted))
  }

  /** Closing fan of the start ring c around cap, in the source's insertion order. */
  function StartFan(cap: nat, c: seq<nat>): seq<Face>
    requires |c| >= 1
  {
    var n := |c|;
    [Triangle(cap, c[0], c[n - 1])] + seq(n - 1, j requires 0 <= j < n - 1 => Triangle(cap, c[j + 1], c[j]))
  }

  /** Closing fan of the end ring c around cap, with the opposite winding. */
  function EndFan(cap: nat, c: seq<nat>): seq<Face>
    requires |c| >= 1
  {
    var n := |c|;
    [Triangle(cap, c[n - 1], c[0])] + seq(n - 1, j requires 0 <= j < n - 1 => Triangle(cap, c[j], c[j + 1]))
  }

  /** The quad strip between ring last and ring current, the wrap-around quad last. */
  function Strip(last: seq<nat>, current: seq<nat>): seq<Face>
    requires |last| == |current| >= 1
  {
    var n := |last|;
    seq(n - 1, j requires 0 <= j < n - 1 => Quad(last[j], last[j + 1], current[j + 1], current[j]))
      + [Quad(last[n - 1], last[0], current[0], current[n - 1])]
  }

  /** All rings have the same positive number of vertices n. */
  ghost predicate UniformRings(rings: seq<seq<nat>>, n: nat) {
    n >= 1 && forall k :: 0 <= k < |rings| ==> |rings[k]| == n
  }

  /** The quad strips joining every pair of consecutive rings, in order. */
  function Strips(rings: seq<seq<nat>>, n: nat): seq<Face>
    requires UniformRings(rings, n)
  {
    if |rings| <= 1 then []
    else Strips(rings[..|rings| - 1], n) + Strip(rings[|rings| - 2], rings[|rings| - 1])
  }

  /** Number of quad strips: ntsegments, but one even when no sample lies inside [t0, t1). */
  function StripCount(ntsegments: nat): nat {
    if ntsegments == 0 then 1 else ntsegments
  }

  /** The first handle after the start ring and its cap (both exist only for a generated start ring). */
  function FirstNewRingBase(v0: nat, n: nat, newStart: bool): nat {
    if newStart then v0 + n + 1 else v0
  }

  /** Ring 0 followed by `strips` rings of n consecutive handles each, from handle base on. */
  function RingLayout(first: seq<nat>, base: nat, n: nat, strips: nat): (rings: seq<seq<nat>>)
    requires |first| == n
    ensures |rings| == strips + 1 && rings[0] == first
    ensures n >= 1 ==> UniformRings(rings, n)
  {
    [first] + seq(strips, k requires 0 <= k < strips => RingHandles(base + k * n, n))
  }

  /** Ring k >= 1 of a layout starts (k - 1) * n handles after base. */
  lemma RingLayoutAt(first: seq<nat>, base: nat, n: nat, strips: nat, k: nat)
    requires |first| == n && 1 <= k <= strips
    ensures RingLayout(first, base, n, strips)[k] == RingHandles(base + (k - 1) * n, n)
  {
  }

  /** Ring 0 (given or generated) followed by the generated rings, one per strip. */
  function GeneratedRings(v0: nat, n: nat, startRing: Option<seq<nat>>, strips: nat): (rings: seq<seq<nat>>)
    requires startRing.Some? ==> |startRing.value| == n
    ensures |rings| == strips + 1
    ensures n >= 1 ==> UniformRings(rings, n)
  {
    RingLayout(if startRing.None? then RingHandles(v0, n) else startRing.value,
               FirstNewRingBase(v0, n, startRing.None?), n, strips)
  }

  /** The handle of the end cap vertex, inserted right after the end ring. */
  function EndCapHandle(v0: nat, n: nat, newStart: bool, strips: nat): nat {
    FirstNewRingBase(v0, n, newStart) + strips * n
  }

  /** The rings 1..k-1 generated inside the sampling range, at their samples. */
  function InnerVertices(ts: seq<real>, n: nat, so: bool, crease: bool, k: nat): (vs: seq<Vertex>)
    requires k <= |ts|
  {
    if k <= 1 then []
    else InnerVertices(ts, n, so, crease, k - 1) + RingVertices(ts[k - 1], n, RingShifted(k - 1, so, crease))
  }

  /** Every vertex generateMesh inserts, in insertion order (so is the effective start offset). */
  function GeneratedVertices(t0: real, t1: real, ts: seq<real>, n: nat, newStart: bool, so: bool, crease: bool): seq<Vertex>
    requires |ts| >= 1
  {
    var nt := |ts| - 1;
    (if newStart then RingVertices(t0, n, false) + [CapVertex(t0)] else [])
      + InnerVertices(ts, n, so, crease, nt)
      + RingVertices(t1, n, RingShifted(nt, so, crease)) + [CapVertex(t1)]
  }

  /** Every face generateMesh inserts, in insertion order. */
  function GeneratedFaces(v0: nat, n: nat, startRing: Option<seq<nat>>, strips: nat): seq<Face>
    requires n >= 1
    requires startRing.Some? ==> |startRing.value| == n
  {
    var rings := GeneratedRings(v0, n, startRing, strips);
    var newStart := startRing.None?;
    (if newStart then StartFan(v0 + n, rings[0]) else [])
      + Strips(rings, n)
      + EndFan(EndCapHandle(v0, n, newStart, strips), rings[strips])
  }

  // ---------------------------------------------------------------------------------
  // Mesh-sink helpers: one ring, one strip, one fan
  // ---------------------------------------------------------------------------------

  /** Insert the n vertices of one ring and collect their handles. */
  method InsertRing(mesh: Mesh, t: real, n: nat, shifted: bool) returns (ring: seq<nat>)
    modifies mesh
    ensures ring == RingHandles(|old(mesh.vertices)|, n)
    ensures mesh.vertices == old(mesh.vertices) + RingVertices(t, n, shifted)
    ensures mesh.faces == old(mesh.faces)
  {
    ring := seq(n, _ => 0);
    var j := 0;
    while j < n
      invariant 0 <= j <= n && |ring| == n
      invariant mesh.vertices == old(mesh.vertices) + RingVertices(t, j, shifted)
      invariant forall k :: 0 <= k < j ==> ring[k] == |old(mesh.vertices)| + k
      invariant mesh.faces == old(mesh.faces)
    {
      var h := mesh.InsertVertex(RingVertex(t, j, shifted));
      ring := ring[j := h];
      assert RingVertices(t, j + 1, shifted) == RingVertices(t, j, shifted) + [RingVertex(t, j, shifted)];
      j := j + 1;
    }
  }

  /** Insert the quads between two consecutive rings. */
  method InsertStrip(mesh: Mesh, last: seq<nat>, current: seq<nat>)
    requires |last| == |current| >= 1
    modifies mesh
    ensures mesh.faces == old(mesh.faces) + Strip(last, current)
    ensures mesh.vertices == old(mesh.vertices)
  {
    var n := |last|;
    var j := 0;
    while j < n - 1
      invariant 0 <= j <= n - 1
      invariant mesh.faces == old(mesh.faces)
        + seq(j, k requires 0 <= k < j => Quad(last[k], last[k + 1], current[k + 1], current[k]))
      invariant mesh.vertices == old(mesh.vertices)
    {
      mesh.InsertFace(Quad(last[j], last[j + 1], current[j + 1], current[j]));
      j := j + 1;
    }
    mesh.InsertFace(Quad(last[n - 1], last[0], current[0], current[n - 1]));
  }

  /** Insert the closing triangles of the start ring. */
  method InsertStartFan(mesh: Mesh, cap: nat, c: seq<nat>)
    requires |c| >= 1
    modifies mesh
    ensures mesh.faces == old(mesh.faces) + StartFan(cap, c)
    ensures mesh.vertices == old(mesh.vertices)
  {
    var n := |c|;
    mesh.InsertFace(Triangle(cap, c[0], c[n - 1]));
    var j := 0;
    while j < n - 1
      invariant 0 <= j <= n - 1
      invariant mesh.faces == old(mesh.faces) + [Triangle(cap, c[0], c[n - 1])]
        + seq(j, k requires 0 <= k < j => Triangle(cap, c[k + 1], c[k]))
      invariant mesh.vertices == old(mesh.vertices)
    {
      mesh.InsertFace(Triangle(cap, c[j + 1], c[j]));
      j := j + 1;
    }
  }

  /** Insert the closing triangles of the end ring. */
  method InsertEndFan(mesh: Mesh, cap: nat, c: seq<nat>)
    requires |c| >= 1
    modifies mesh
    ensures mesh.faces == old(mesh.faces) + EndFan(cap, c)
    ensures mesh.vertices == old(mesh.vertices)
  {
    var n := |c|;
    mesh.InsertFace(Triangle(cap, c[n - 1], c[0]));
    var j := 0;
    while j < n - 1
      invariant 0 <= j <= n - 1
      invariant mesh.faces == old(mesh.faces) + [Triangle(cap, c[n - 1], c[0])]
        + seq(j, k requires 0 <= k < j => Triangle(cap, c[k], c[k + 1]))
      invariant mesh.vertices == old(mesh.vertices)
    {
      mesh.InsertFace(Triangle(cap, c[j], c[j + 1]));
      j := j + 1;
    }
  }

  lemma Append3<T>(a: seq<T>, b: seq<T>, c: seq<T>)
    ensures (a + b) + c == a + (b + c)
  {
  }

  /** (i - 1) * n + n == i * n */
  lemma NextRingBase(i: nat, n: nat)
    requires i >= 1
    ensures (i - 1) * n + n == i * n
  {
  }

  /** Appending the strip to the last ring extends the strips of a ring prefix. */
  lemma StripsExtend(rings: seq<seq<nat>>, n: nat, i: nat)
    requires UniformRings(rings, n) && 1 <= i < |rings|
    ensures Strips(rings[..i + 1], n) == Strips(rings[..i], n) + Strip(rings[i - 1], rings[i])
  {
    assert rings[..i + 1][..i] == rings[..i];
  }

  /** The end ring of a layout with strips >= 1 starts (strips - 1) * n handles after base. */
  lemma EndRingLayout(first: seq<nat>, base: nat, n: nat, strips: nat, endBase: nat)
    requires |first| == n && n >= 1 && strips >= 1
    requires endBase == base + (strips - 1) * n
    ensures RingLayout(first, base, n, strips)[strips] == RingHandles(endBase, n)
    ensures endBase + n == base + strips * n
  {
    RingLayoutAt(first, base, n, strips, strips);
    NextRingBase(strips, n);
  }

  /** A generated start ring at t0 (never offset), its cap vertex and the start fan. */
  method InsertStart(mesh: Mesh, t0: real, n: nat) returns (current: seq<nat>)
    requires n >= 1
    modifies mesh
    ensures current == RingHandles(|old(mesh.vertices)|, n)
    ensures mesh.vertices == old(mesh.vertices) + (RingVertices(t0, n, false) + [CapVertex(t0)])
    ensures mesh.faces == old(mesh.faces) + StartFan(|old(mesh.vertices)| + n, current)
  {
    current := InsertRing(mesh, t0, n, false);
    var startCap := mesh.InsertVertex(CapVertex(t0));
    InsertStartFan(mesh, startCap, current);
  }

  /** The end ring at t1, the end cap vertex, the last strip and the end fan. */
  method InsertEnd(mesh: Mesh, t1: real, n: nat, shifted: bool, last: seq<nat>)
    returns (current: seq<nat>, endCap: nat)
    requires |last| == n >= 1
    modifies mesh
    ensures current == RingHandles(|old(mesh.vertices)|, n) && endCap == |old(mesh.vertices)| + n
    ensures mesh.vertices == old(mesh.vertices) + (RingVertices(t1, n, shifted) + [CapVertex(t1)])
    ensures mesh.faces == old(mesh.faces) + (Strip(last, current) + EndFan(endCap, current))
  {
    current := InsertRing(mesh, t1, n, shifted);
    // the end cap is inserted whether or not the caller asked for the end ring
    endCap := mesh.InsertVertex(CapVertex(t1));
    InsertStrip(mesh, last, current);
    InsertEndFan(mesh, endCap, current);
  }

  /** One step of the inner-ring loop: ring i at sample ts[i], then the strip from the previous ring. */
  method InsertNextRing(mesh: Mesh, ts: seq<real>, n: nat, so: bool, crease: bool, i: nat, last: seq<nat>)
    returns (current: seq<nat>)
    requires 1 <= i < |ts| && |last| == n >= 1
    modifies mesh
    ensures current == RingHandles(|old(mesh.vertices)|, n)
    ensures mesh.vertices == old(mesh.vertices) + RingVertices(ts[i], n, RingShifted(i, so, crease))
    ensures mesh.faces == old(mesh.faces) + Strip(last, current)
  {
    var shifted := RingShifted(i, so, crease);
    current := InsertRing(mesh, ts[i], n, shifted);
    InsertStrip(mesh, last, current);
  }

  /** One iteration of the inner-ring loop keeps its invariant. */
  lemma InnerRingStep(ts: seq<real>, n: nat, so: bool, crease: bool, first: seq<nat>, base: nat, strips: nat, i: nat,
                      v0: seq<Vertex>, f0: seq<Face>, vPrev: seq<Vertex>, fPrev: seq<Face>,
                      last: seq<nat>, current: seq<nat>, vNext: seq<Vertex>, fNext: seq<Face>)
    requires |first| == n && n >= 1 && 1 <= i < strips && i < |ts|
    requires last == RingLayout(first, base, n, strips)[i - 1]
    requires vPrev == v0 + InnerVertices(ts, n, so, crease, i) && |vPrev| == base + (i - 1) * n
    requires fPrev == f0 + Strips(RingLayout(first, base, n, strips)[..i], n)
    requires current == RingHandles(|vPrev|, n)
    requires vNext == vPrev + RingVertices(ts[i], n, RingShifted(i, so, crease))
    requires fNext == fPrev + Strip(last, current)
    ensures current == RingLayout(first, base, n, strips)[i]
    ensures vNext == v0 + InnerVertices(ts, n, so, crease, i + 1) && |vNext| == base + i * n
    ensures fNext == f0 + Strips(RingLayout(first, base, n, strips)[..i + 1], n)
  {
    var rings := RingLayout(first, base, n, strips);
    RingLayoutAt(first, base, n, strips, i);
    NextRingBase(i, n);
    StripsExtend(rings, n, i);
    Append3(f0, Strips(rings[..i], n), Strip(last, current));
    Append3(v0, InnerVertices(ts, n, so, crease, i), RingVertices(ts[i], n, RingShifted(i, so, crease)));
  }

  /**
   * The inner-ring loop of generateMesh: rings 1..ntsegments-1 at their samples, each
   * joined to the previous ring by a quad strip. Returns the last ring generated (or
   * the start ring when there is none).
   */
  method InsertInnerRings(mesh: Mesh, ts: seq<real>, ntsegments: nat, n: nat, so: bool, crease: bool, first: seq<nat>)
    returns (current: seq<nat>)
    requires |ts| == ntsegments + 1 && |first| == n && n >= 1
    modifies mesh
    ensures var rings := RingLayout(first, |old(mesh.vertices)|, n, StripCount(ntsegments));
      && current == rings[StripCount(ntsegments) - 1]
      && mesh.vertices == old(mesh.vertices) + InnerVertices(ts, n, so, crease, ntsegments)
      && mesh.faces == old(mesh.faces) + Strips(rings[..StripCount(ntsegments)], n)
    ensures |mesh.vertices| == |old(mesh.vertices)| + (StripCount(ntsegments) - 1) * n
  {
    ghost var base := |mesh.vertices|;
    ghost var strips := StripCount(ntsegments);
    ghost var rings := RingLayout(first, base, n, strips);
    current := first;
    var i := 1;
    while i < ntsegments
      invariant 1 <= i <= strips
      invariant current == rings[i - 1]
      invariant mesh.vertices == old(mesh.vertices) + InnerVertices(ts, n, so, crease, i)
      invariant |mesh.vertices| == base + (i - 1) * n
      invariant mesh.faces == old(mesh.faces) + Strips(rings[..i], n)
    {
      var last := current;
      ghost var prevVertices := mesh.vertices;
      ghost var prevFaces := mesh.faces;
      current := InsertNextRing(mesh, ts, n, so, crease, i, last);
      InnerRingStep(ts, n, so, crease, first, base, strips, i, old(mesh.vertices), old(mesh.faces),
        prevVertices, prevFaces, last, current, mesh.vertices, mesh.faces);
      i := i + 1;
    }
    assert InnerVertices(ts, n, so, crease, i) == InnerVertices(ts, n, so, crease, ntsegments);
  }

  /**
   * Everything after ring 0: the inner rings with their strips, then the end ring at t1,
   * the end cap vertex, the last strip and the end fan.
   */
  method InsertBody(mesh: Mesh, ts: seq<real>, ntsegments: nat, n: nat, so: bool, crease: bool,
                    first: seq<nat>, t1: real)
    returns (current: seq<nat>, endCap: nat)
    requires |ts| == ntsegments + 1 && |first| == n && n >= 1
    modifies mesh
    ensures var strips := StripCount(ntsegments);
      var rings := RingLayout(first, |old(mesh.vertices)|, n, strips);
      && current == rings[strips] && endCap == |old(mesh.vertices)| + strips * n
      && mesh.vertices == old(mesh.vertices) + (InnerVertices(ts, n, so, crease, ntsegments)
           + (RingVertices(t1, n, RingShifted(ntsegments, so, crease)) + [CapVertex(t1)]))
      && mesh.faces == old(mesh.faces) + (Strips(rings, n) + EndFan(endCap, current))
  {
    ghost var base := |mesh.vertices|;
    ghost var strips := StripCount(ntsegments);
    ghost var rings := RingLayout(first, base, n, strips);
    current := InsertInnerRings(mesh, ts, ntsegments, n, so, crease, first);
    ghost var inner := InnerVertices(ts, n, so, crease, ntsegments);
    ghost var endBase := base + (strips - 1) * n;
    EndRingLayout(first, base, n, strips, endBase);
    ghost var midVertices := mesh.vertices;
    ghost var midFaces := mesh.faces;

    // the end ring, at t1, carries the parity of ring index ntsegments
    var shifted := RingShifted(ntsegments, so, crease);
    var last := current;
    current, endCap := InsertEnd(mesh, t1, n, shifted, last);
    assert current == rings[strips];
    assert rings[..strips + 1] == rings;
    StripsExtend(rings, n, strips);
    Append3(old(mesh.vertices), inner, RingVertices(t1, n, shifted) + [CapVertex(t1)]);
    Append3(Strips(rings[..strips], n), Strip(last, current), EndFan(endCap, current));
    Append3(old(mesh.faces), Strips(rings[..strips], n), Strip(last, current) + EndFan(endCap, current));
  }

  // ---------------------------------------------------------------------------------
  // The canal surface
  // ---------------------------------------------------------------------------------

  /** A space curve given by three component functors over the domain [t0, t1]. */
  datatype SpaceCurve<C2F> = SpaceCurve(components: seq<C2F>, t0: real, t1: real)

  /**
   * A canal surface: spine curve, radius functor and parameter domain. Evaluation of the
   * spine and the radius is external; the mesher receives the resulting step function.
   */
  class CanalSurface<C2F, RadF> {
    var spine: SpaceCurve<C2F>
    var radius: RadF
    var t0: real
    var t1: real

    /** From a spine curve and a radius functor; the domain is the curve's. */
    constructor FromCurve(spine: SpaceCurve<C2F>, radius: RadF)
      ensures this.spine == spine && this.radius == radius
      ensures t0 == spine.t0 && t1 == spine.t1
    {
      this.spine := spine;
      this.radius := radius;
      t0, t1 := spine.t0, spine.t1;
    }

    /** From three component functors, a radius functor and an explicit domain. */
    constructor FromComponents(components: seq<C2F>, radius: RadF, t0: real, t1: real)
      requires |components| == 3
      ensures spine == SpaceCurve(components, t0, t1) && this.radius == radius
      ensures this.t0 == t0 && this.t1 == t1
    {
      spine := SpaceCurve(components, t0, t1);
      this.radius := radius;
      this.t0, this.t1 := t0, t1;
    }

    /** Copy constructor: a deep value copy. */
    constructor Copy(delta: CanalSurface<C2F, RadF>)
      ensures spine == delta.spine && radius == delta.radius && t0 == delta.t0 && t1 == delta.t1
    {
      spine, radius := delta.spine, delta.radius;
      t0, t1 := delta.t0, delta.t1;
    }

    /** Assignment operator. */
    method Assign(delta: CanalSurface<C2F, RadF>)
      modifies this
      ensures spine == old(delta.spine) && radius == old(delta.radius)
      ensures t0 == old(delta.t0) && t1 == old(delta.t1)
    {
      spine, radius := delta.spine, delta.radius;
      t0, t1 := delta.t0, delta.t1;
    }

    /** Replaces the spine curve; the domain fields t0, t1 are left as they were. */
    method SetSpineCurve(gamma: SpaceCurve<C2F>)
      modifies this
      ensures spine == gamma && radius == old(radius) && t0 == old(t0) && t1 == old(t1)
    {
      spine := gamma;
    }

    /** Replaces the radius functor. */
    method SetRadiusFunctor(r: RadF)
      modifies this
      ensures radius == r && spine == old(spine) && t0 == old(t0) && t1 == old(t1)
    {
      radius := r;
    }

    /**
     * generateMesh. On a start ring of the wrong size it fails before inserting
     * anything; otherwise it appends GeneratedVertices and GeneratedFaces to the mesh
     * and writes the end offset, end ring and end cap to the requested outputs.
     * The samples the rings are placed at are returned as ghost values.
     */
    method GenerateMesh(mesh: Mesh, n: nat, step: real -> real, minStep: real, startOffset: bool,
                        startRing: Option<seq<nat>>, request: ChainRequest, preserveCreaseEdges: bool)
      returns (r: Result<Chain, MeshError>, ghost samples: seq<real>, ghost raw: seq<real>)
      requires n >= 1
      requires Sampling.PositiveSteps(step, minStep)
      modifies mesh
      ensures Sampling.IsRawChain(raw, t0, t1, step) && samples == Sampling.Spread(raw, t1)
      ensures startRing.Some? && |startRing.value| != n ==>
        && r == Failure(StartRingSizeMismatch)
        && mesh.vertices == old(mesh.vertices) && mesh.faces == old(mesh.faces)
      ensures startRing.None? || |startRing.value| == n ==>
        var nt, v0 := |samples| - 1, |old(mesh.vertices)|;
        var so := EffectiveStartOffset(startOffset, startRing);
        var rings := GeneratedRings(v0, n, startRing, StripCount(nt));
        && mesh.vertices == old(mesh.vertices)
             + GeneratedVertices(t0, t1, samples, n, startRing.None?, so, preserveCreaseEdges)
        && mesh.faces == old(mesh.faces) + GeneratedFaces(v0, n, startRing, StripCount(nt))
        && r == Success(Chain(
             if request.wantEndOffset then Some(EndOffset(so, nt)) else None,
             if request.wantEndRing then Some(rings[StripCount(nt)]) else None,
             if request.wantEndCap then Some(EndCapHandle(v0, n, startRing.None?, StripCount(nt))) else None))
    {
      var ts, ntsegments;
      ts, ntsegments, raw := Sampling.SampleParameters(t0, t1, step, minStep);
      samples := ts;
      ghost var v0 := |mesh.vertices|;

      var so := startOffset;
      var current: seq<nat>;
      ghost var startVertices: seq<Vertex> := [];
      ghost var startFaces: seq<Face> := [];
      if startRing.None? {
        // a generated start ring is never offset
        so := false;
        current := InsertStart(mesh, t0, n);
        startVertices := RingVertices(t0, n, false) + [CapVertex(t0)];
        startFaces := StartFan(v0 + n, current);
      } else if |startRing.value| == n {
        current := startRing.value;
      } else {
        return Failure(StartRingSizeMismatch), samples, raw;
      }
      ghost var strips := StripCount(ntsegments);
      ghost var rings := GeneratedRings(v0, n, startRing, strips);
      ghost var mid := |mesh.vertices|;
      assert rings == RingLayout(current, mid, n, strips);
      ghost var startMesh := (mesh.vertices, mesh.faces);
      assert startMesh.0 == old(mesh.vertices) + startVertices;
      assert startMesh.1 == old(mesh.faces) + startFaces;

      var endCap;
      current, endCap := InsertBody(mesh, ts, ntsegments, n, so, preserveCreaseEdges, current, t1);
      ghost var inner := InnerVertices(ts, n, so, preserveCreaseEdges, ntsegments);
      ghost var endRing := RingVertices(t1, n, RingShifted(ntsegments, so, preserveCreaseEdges)) + [CapVertex(t1)];
      assert GeneratedVertices(t0, t1, ts, n, startRing.None?, so, preserveCreaseEdges)
          == startVertices + (inner + endRing) by {
        Append3(startVertices + inner, RingVertices(t1, n, RingShifted(ntsegments, so, preserveCreaseEdges)), [CapVertex(t1)]);
        Append3(startVertices, inner, endRing);
      }
      Append3(old(mesh.vertices), startVertices, inner + endRing);
      assert endCap == EndCapHandle(v0, n, startRing.None?, strips);
      assert GeneratedFaces(v0, n, startRing, strips) == startFaces + (Strips(rings, n) + EndFan(endCap, current)) by {
        Append3(startFaces, Strips(rings, n), EndFan(endCap, current));
      }
      Append3(old(mesh.faces), startFaces, Strips(rings, n) + EndFan(endCap, current));

      r := Success(Chain(
        if request.wantEndOffset then Some(EndOffset(so, ntsegments)) else None,
        if request.wantEndRing then Some(current) else None,
        if request.wantEndCap then Some(endCap) else None));
    }
  }
}
