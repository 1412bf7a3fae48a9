/**
 * Properties of the mesh CanalSurface::generateMesh builds: how many vertices and
 * faces it inserts, the winding of each strip and fan, that the tube is closed and
 * consistently oriented, that every ring handle names the vertex placed for it, and
 * how the half-step shifts alternate along one segment and across chained segments.
 */
module RingMeshProps {
  import opened Outcomes
  import opened MeshSink
  import opened RingMesh

  // ---------------------------------------------------------------------------------
  // Counting
  // ---------------------------------------------------------------------------------

  /** The inner rings are k - 1 rings of n vertices. */
  lemma {:induction false} InnerVerticesLength(ts: seq<real>, n: nat, so: bool, crease: bool, k: nat)
    requires 1 <= k <= |ts|
    ensures |InnerVertices(ts, n, so, crease, k)| == (k - 1) * n
  {
    if k > 1 {
      InnerVerticesLength(ts, n, so, crease, k - 1);
      NextRingBase(k - 1, n);
    }
  }

  /** One strip of n quads per pair of consecutive rings. */
  lemma {:induction false} StripsLength(rings: seq<seq<nat>>, n: nat)
    requires UniformRings(rings, n) && |rings| >= 1
    ensures |Strips(rings, n)| == (|rings| - 1) * n
  {
    if |rings| > 1 {
      StripsLength(rings[..|rings| - 1], n);
      NextRingBase(|rings| - 1, n);
    }
  }

  /**
   * With S = StripCount(ntsegments) strips: a generated start ring gives (S + 1) * n + 2
   * vertices and (S + 2) * n faces; a supplied start ring gives S * n + 1 vertices and
   * (S + 1) * n faces.
   */
  lemma GeneratedCounts(t0: real, t1: real, ts: seq<real>, n: nat, startRing: Option<seq<nat>>,
                        so: bool, crease: bool, v0: nat)
    requires |ts| >= 1 && n >= 1
    requires startRing.Some? ==> |startRing.value| == n
    ensures var s := StripCount(|ts| - 1);
      && |GeneratedVertices(t0, t1, ts, n, startRing.None?, so, crease)|
           == (if startRing.None? then (s + 1) * n + 2 else s * n + 1)
      && |GeneratedFaces(v0, n, startRing, s)|
           == (if startRing.None? then (s + 2) * n else (s + 1) * n)
  {
    var nt := |ts| - 1;
    var s := StripCount(nt);
    if nt >= 1 {
      InnerVerticesLength(ts, n, so, crease, nt);
    }
    var rings := GeneratedRings(v0, n, startRing, s);
    StripsLength(rings, n);
    CountArithmetic(s, n);
  }

  lemma CountArithmetic(s: nat, n: nat)
    requires s >= 1
    ensures (s - 1) * n + n == s * n
    ensures s * n + n == (s + 1) * n
    ensures (s + 1) * n + n == (s + 2) * n
  {
  }

  // ---------------------------------------------------------------------------------
  // Winding of strips and fans
  // ---------------------------------------------------------------------------------

  /** Quad j of a strip joins sides j and j + 1 (mod n) of both rings, lower ring first. */
  lemma StripWinding(last: seq<nat>, current: seq<nat>, j: nat)
    requires |last| == |current| >= 1 && j < |last|
    ensures var n := |last|;
      && |Strip(last, current)| == n
      && Strip(last, current)[j] == Quad(last[j], last[(j + 1) % n], current[(j + 1) % n], current[j])
  {
    var n := |last|;
    if j == n - 1 {
      assert (j + 1) % n == 0;
    } else {
      assert (j + 1) % n == j + 1;
    }
  }

  /** The start fan holds the triangle (cap, c[j + 1], c[j]) (mod n) at position j + 1 (mod n). */
  lemma StartFanWinding(cap: nat, c: seq<nat>, j: nat)
    requires 1 <= |c| && j < |c|
    ensures var n := |c|;
      && |StartFan(cap, c)| == n
      && StartFan(cap, c)[(j + 1) % n] == Triangle(cap, c[(j + 1) % n], c[j])
  {
    var n := |c|;
    if j == n - 1 {
      assert (j + 1) % n == 0;
    } else {
      assert (j + 1) % n == j + 1;
    }
  }

  /** The end fan holds the triangle (cap, c[j], c[j + 1]) (mod n) at position j + 1 (mod n). */
  lemma EndFanWinding(cap: nat, c: seq<nat>, j: nat)
    requires 1 <= |c| && j < |c|
    ensures var n := |c|;
      && |EndFan(cap, c)| == n
      && EndFan(cap, c)[(j + 1) % n] == Triangle(cap, c[j], c[(j + 1) % n])
  {
    var n := |c|;
    if j == n - 1 {
      assert (j + 1) % n == 0;
    } else {
      assert (j + 1) % n == j + 1;
    }
  }

  // ---------------------------------------------------------------------------------
  // Closed and consistently oriented
  // ---------------------------------------------------------------------------------

  /** Some face of faces has the directed edge (u, v). */
  ghost predicate HasEdge(faces: seq<Face>, u: nat, v: nat) {
    exists g :: g in faces && HasDirectedEdge(g, u, v)
  }

  /** Side j of ring c, running forward: from c[j] to c[j + 1 (mod n)]. */
  function RingSide(c: seq<nat>, j: nat): (nat, nat)
    requires j < |c|
  {
    (c[j], c[(j + 1) % |c|])
  }

  /** (u, v) runs forward along ring c. */
  ghost predicate ForwardOnRing(c: seq<nat>, u: nat, v: nat) {
    exists j :: 0 <= j < |c| && RingSide(c, j) == (u, v)
  }

  /**
   * The reverse of every directed side of every face is a side of some face, except the
   * sides running forward along the open ring, when there is one.
   */
  ghost predicate PairedExcept(faces: seq<Face>, open: Option<seq<nat>>) {
    forall f, u, v :: f in faces && HasDirectedEdge(f, u, v) ==>
      HasEdge(faces, v, u) || (open.Some? && ForwardOnRing(open.value, u, v))
  }

  /** A tube: the optional start fan, the strips between consecutive rings, the end fan. */
  function TubeFaces(hasStart: bool, cap0: nat, cap1: nat, rings: seq<seq<nat>>, n: nat): seq<Face>
    requires UniformRings(rings, n) && |rings| >= 2
  {
    (if hasStart then StartFan(cap0, rings[0]) else []) + Strips(rings, n) + EndFan(cap1, rings[|rings| - 1])
  }

  /** The faces generateMesh inserts form a tube over the generated rings. */
  lemma GeneratedFacesAreTube(v0: nat, n: nat, startRing: Option<seq<nat>>, strips: nat)
    requires n >= 1 && strips >= 1
    requires startRing.Some? ==> |startRing.value| == n
    ensures var rings := GeneratedRings(v0, n, startRing, strips);
      GeneratedFaces(v0, n, startRing, strips)
        == TubeFaces(startRing.None?, v0 + n, EndCapHandle(v0, n, startRing.None?, strips), rings, n)
  {
  }

  lemma PrevIndex(j: nat, n: nat)
    requires j < n
    ensures (j + n - 1) % n < n && ((j + n - 1) % n + 1) % n == j
  {
    if j == 0 {
      assert (n - 1) % n == n - 1;
    } else {
      assert (j + n - 1) % n == j - 1;
    }
  }

  /** Every face of a strip lies among all the strips. */
  lemma {:induction false} StripsContains(rings: seq<seq<nat>>, n: nat, k: nat, j: nat)
    requires UniformRings(rings, n) && 1 <= k < |rings| && j < n
    ensures Strip(rings[k - 1], rings[k])[j] in Strips(rings, n)
  {
    var prefix := rings[..|rings| - 1];
    var top := Strip(rings[|rings| - 2], rings[|rings| - 1]);
    assert Strips(rings, n) == Strips(prefix, n) + top;
    var f := Strip(rings[k - 1], rings[k])[j];
    if k < |rings| - 1 {
      assert prefix[k - 1] == rings[k - 1] && prefix[k] == rings[k];
      StripsContains(prefix, n, k, j);
      assert f in Strips(prefix, n);
    } else {
      assert f == top[j];
    }
  }

  /** Every face among the strips is some face j of the strip below ring k. */
  lemma {:induction false} StripsMember(rings: seq<seq<nat>>, n: nat, f: Face) returns (k: nat, j: nat)
    requires UniformRings(rings, n) && f in Strips(rings, n)
    ensures 1 <= k < |rings| && j < n && f == Strip(rings[k - 1], rings[k])[j]
  {
    var prefix := rings[..|rings| - 1];
    var last := Strip(rings[|rings| - 2], rings[|rings| - 1]);
    if f in last {
      k := |rings| - 1;
      j :| 0 <= j < |last| && last[j] == f;
    } else {
      assert f in Strips(prefix, n);
      k, j := StripsMember(prefix, n, f);
      assert prefix[k - 1] == rings[k - 1] && prefix[k] == rings[k];
    }
  }

  /** The reverse of every side of a strip quad is a side of another face of the tube. */
  lemma StripQuadPaired(hasStart: bool, cap0: nat, cap1: nat, rings: seq<seq<nat>>, n: nat,
                        k: nat, j: nat, u: nat, v: nat)
    requires UniformRings(rings, n) && |rings| >= 2 && 1 <= k < |rings| && j < n
    requires HasDirectedEdge(Strip(rings[k - 1], rings[k])[j], u, v)
    ensures var faces := TubeFaces(hasStart, cap0, cap1, rings, n);
      HasEdge(faces, v, u) || (!hasStart && ForwardOnRing(rings[0], u, v))
  {
    var faces := TubeFaces(hasStart, cap0, cap1, rings, n);
    var lower, upper := rings[k - 1], rings[k];
    var j1 := (j + 1) % n;
    StripWinding(lower, upper, j);
    if (u, v) == (lower[j], lower[j1]) {
      if k >= 2 {
        var g := Strip(rings[k - 2], lower)[j];
        StripWinding(rings[k - 2], lower, j);
        StripsContains(rings, n, k - 1, j);
        assert g in faces && HasDirectedEdge(g, v, u);
      } else if hasStart {
        var g := StartFan(cap0, lower)[j1];
        StartFanWinding(cap0, lower, j);
        assert g in faces && HasDirectedEdge(g, v, u);
      } else {
        assert RingSide(rings[0], j) == (u, v);
      }
    } else if (u, v) == (lower[j1], upper[j1]) {
      var g := Strip(lower, upper)[j1];
      StripWinding(lower, upper, j1);
      StripsContains(rings, n, k, j1);
      assert g in faces && HasDirectedEdge(g, v, u);
    } else if (u, v) == (upper[j1], upper[j]) {
      if k + 1 < |rings| {
        var g := Strip(upper, rings[k + 1])[j];
        StripWinding(upper, rings[k + 1], j);
        StripsContains(rings, n, k + 1, j);
        assert g in faces && HasDirectedEdge(g, v, u);
      } else {
        var g := EndFan(cap1, upper)[j1];
        EndFanWinding(cap1, upper, j);
        assert g in faces && HasDirectedEdge(g, v, u);
      }
    } else {
      var jm := (j + n - 1) % n;
      PrevIndex(j, n);
      var g := Strip(lower, upper)[jm];
      StripWinding(lower, upper, jm);
      StripsContains(rings, n, k, jm);
      assert g in faces && HasDirectedEdge(g, v, u);
    }
  }

  /** The reverse of every side of a start-fan triangle is a side of another face of the tube. */
  lemma StartTrianglePaired(cap0: nat, cap1: nat, rings: seq<seq<nat>>, n: nat, i: nat, u: nat, v: nat)
    requires UniformRings(rings, n) && |rings| >= 2 && i < n
    requires HasDirectedEdge(StartFan(cap0, rings[0])[i], u, v)
    ensures HasEdge(TubeFaces(true, cap0, cap1, rings, n), v, u)
  {
    var faces := TubeFaces(true, cap0, cap1, rings, n);
    var c := rings[0];
    var j := (i + n - 1) % n;
    PrevIndex(i, n);
    var j1 := (j + 1) % n;
    StartFanWinding(cap0, c, j);
    if (u, v) == (cap0, c[j1]) {
      var g := StartFan(cap0, c)[(j1 + 1) % n];
      StartFanWinding(cap0, c, j1);
      assert g in faces && HasDirectedEdge(g, v, u);
    } else if (u, v) == (c[j1], c[j]) {
      var g := Strip(c, rings[1])[j];
      StripWinding(c, rings[1], j);
      StripsContains(rings, n, 1, j);
      assert g in faces && HasDirectedEdge(g, v, u);
    } else {
      var jm := (j + n - 1) % n;
      PrevIndex(j, n);
      var g := StartFan(cap0, c)[j];
      StartFanWinding(cap0, c, jm);
      assert g in faces && HasDirectedEdge(g, v, u);
    }
  }

  /** The reverse of every side of an end-fan triangle is a side of another face of the tube. */
  lemma EndTrianglePaired(hasStart: bool, cap0: nat, cap1: nat, rings: seq<seq<nat>>, n: nat,
                          i: nat, u: nat, v: nat)
    requires UniformRings(rings, n) && |rings| >= 2 && i < n
    requires HasDirectedEdge(EndFan(cap1, rings[|rings| - 1])[i], u, v)
    ensures HasEdge(TubeFaces(hasStart, cap0, cap1, rings, n), v, u)
  {
    var faces := TubeFaces(hasStart, cap0, cap1, rings, n);
    var s := |rings| - 1;
    var c := rings[s];
    var j := (i + n - 1) % n;
    PrevIndex(i, n);
    var j1 := (j + 1) % n;
    EndFanWinding(cap1, c, j);
    if (u, v) == (cap1, c[j]) {
      var jm := (j + n - 1) % n;
      PrevIndex(j, n);
      var g := EndFan(cap1, c)[j];
      EndFanWinding(cap1, c, jm);
      assert g in faces && HasDirectedEdge(g, v, u);
    } else if (u, v) == (c[j], c[j1]) {
      var g := Strip(rings[s - 1], c)[j];
      StripWinding(rings[s - 1], c, j);
      StripsContains(rings, n, s, j);
      assert g in faces && HasDirectedEdge(g, v, u);
    } else {
      var g := EndFan(cap1, c)[(j1 + 1) % n];
      EndFanWinding(cap1, c, j1);
      assert g in faces && HasDirectedEdge(g, v, u);
    }
  }

  /**
   * Closed and consistently oriented: the reverse of every directed side of every face
   * is a side of some face, except, when the start ring was supplied by the caller,
   * the sides running forward along that ring (the open end the chained segment before
   * this one closes).
   */
  lemma TubePaired(hasStart: bool, cap0: nat, cap1: nat, rings: seq<seq<nat>>, n: nat,
                    faces: seq<Face>, open: Option<seq<nat>>)
    requires UniformRings(rings, n) && |rings| >= 2
    requires faces == TubeFaces(hasStart, cap0, cap1, rings, n)
    requires open == if hasStart then None else Some(rings[0])
    ensures PairedExcept(faces, open)
  {
    var start := if hasStart then StartFan(cap0, rings[0]) else [];
    var end := EndFan(cap1, rings[|rings| - 1]);
    forall f, u, v | f in faces && HasDirectedEdge(f, u, v)
      ensures HasEdge(faces, v, u) || (!hasStart && ForwardOnRing(rings[0], u, v))
    {
      if f in start {
        StartFanWinding(cap0, rings[0], 0);
        var i :| 0 <= i < |start| && start[i] == f;
        StartTrianglePaired(cap0, cap1, rings, n, i, u, v);
      } else if f in Strips(rings, n) {
        var k, j := StripsMember(rings, n, f);
        StripQuadPaired(hasStart, cap0, cap1, rings, n, k, j, u, v);
      } else {
        assert f in end;
        EndFanWinding(cap1, rings[|rings| - 1], 0);
        var i :| 0 <= i < |end| && end[i] == f;
        EndTrianglePaired(hasStart, cap0, cap1, rings, n, i, u, v);
      }
    }
  }

  /**
   * The mesh generateMesh inserts is closed and consistently oriented when it generates
   * its own start ring; with a supplied start ring only the forward sides along that
   * ring are unmatched.
   */
  lemma GeneratedMeshPaired(v0: nat, n: nat, startRing: Option<seq<nat>>, strips: nat, faces: seq<Face>)
    requires n >= 1 && strips >= 1
    requires startRing.Some? ==> |startRing.value| == n
    requires faces == GeneratedFaces(v0, n, startRing, strips)
    ensures PairedExcept(faces, startRing)
  {
    var rings := GeneratedRings(v0, n, startRing, strips);
    var cap1 := EndCapHandle(v0, n, startRing.None?, strips);
    GeneratedFacesAreTube(v0, n, startRing, strips);
    assert startRing == if startRing.None? then None else Some(rings[0]) by {
      if startRing.Some? {
        assert rings[0] == startRing.value;
      }
    }
    TubePaired(startRing.None?, v0 + n, cap1, rings, n, faces, startRing);
  }

  /** The strips begin with the strip between rings 0 and 1. */
  lemma {:induction false} StripsFirst(rings: seq<seq<nat>>, n: nat, j: nat)
    requires UniformRings(rings, n) && |rings| >= 2 && j < n
    ensures j < |Strips(rings, n)| && Strips(rings, n)[j] == Strip(rings[0], rings[1])[j]
  {
    var prefix := rings[..|rings| - 1];
    StripsLength(rings, n);
    if |rings| == 2 {
      assert Strips(prefix, n) == [];
    } else {
      StripsFirst(prefix, n, j);
      StripsLength(prefix, n);
      BlockBound(0, |prefix| - 1, n, j);
    }
  }

  /**
   * A supplied start ring is reused verbatim as ring 0: no start fan, and the first n
   * faces are the strip from it to the first new ring, whose handles start at v0.
   */
  lemma SuppliedStartRingReused(v0: nat, n: nat, c: seq<nat>, strips: nat, j: nat, faces: seq<Face>)
    requires |c| == n && n >= 1 && strips >= 1 && j < n
    requires faces == GeneratedFaces(v0, n, Some(c), strips)
    ensures j < |faces| && faces[j] == Quad(c[j], c[(j + 1) % n], v0 + (j + 1) % n, v0 + j)
  {
    var rings := GeneratedRings(v0, n, Some(c), strips);
    assert rings == RingLayout(c, v0, n, strips);
    RingLayoutAt(c, v0, n, strips, 1);
    var body := Strips(rings, n);
    assert faces == [] + body + EndFan(EndCapHandle(v0, n, false, strips), rings[strips]);
    StripsFirst(rings, n, j);
    StripWinding(rings[0], rings[1], j);
  }

  // ---------------------------------------------------------------------------------
  // Ring handles name the vertices placed for them
  // ---------------------------------------------------------------------------------

  /** The parameter of ring k of S = StripCount(|ts| - 1) strips: t0, the inner samples, t1. */
  function RingParameter(t0: real, t1: real, ts: seq<real>, k: nat): real
    requires |ts| >= 1 && k <= StripCount(|ts| - 1)
  {
    if k == 0 then t0 else if k == StripCount(|ts| - 1) then t1 else ts[k]
  }

  /** Whether ring k carries the half-step shift; the end ring takes the parity of ntsegments. */
  function RingShift(ts: seq<real>, so: bool, crease: bool, k: nat): bool
    requires |ts| >= 1 && k <= StripCount(|ts| - 1)
  {
    var nt := |ts| - 1;
    if k == 0 then false else if k == StripCount(nt) then RingShifted(nt, so, crease) else RingShifted(k, so, crease)
  }

  lemma BlockBound(a: nat, b: nat, n: nat, j: nat)
    requires a < b && j < n
    ensures a * n + j < b * n
  {
    assert (a + 1) * n <= b * n by {
      assert b * n == (a + 1) * n + (b - a - 1) * n;
    }
  }

  lemma RingVertexAt(t: real, n: nat, shifted: bool, j: nat)
    requires j < n
    ensures RingVertices(t, n, shifted)[j] == RingVertex(t, j, shifted)
  {
  }

  /** Inner ring k, 1 <= k < m, occupies positions (k - 1) * n .. k * n - 1 of the inner vertices. */
  lemma {:induction false} InnerVertexAt(ts: seq<real>, n: nat, so: bool, crease: bool, m: nat, k: nat, j: nat)
    requires 1 <= k < m <= |ts| && j < n
    ensures (k - 1) * n + j < |InnerVertices(ts, n, so, crease, m)|
    ensures InnerVertices(ts, n, so, crease, m)[(k - 1) * n + j] == RingVertex(ts[k], j, RingShifted(k, so, crease))
  {
    InnerVerticesLength(ts, n, so, crease, m);
    InnerVerticesLength(ts, n, so, crease, m - 1);
    var head := InnerVertices(ts, n, so, crease, m - 1);
    if k == m - 1 {
      RingVertexAt(ts[k], n, RingShifted(k, so, crease), j);
    } else {
      BlockBound(k - 1, m - 2, n, j);
      InnerVertexAt(ts, n, so, crease, m - 1, k, j);
    }
  }

  lemma ConcatIndex<T>(a: seq<T>, b: seq<T>, c: seq<T>, i: nat)
    requires i < |b|
    ensures |a| + i < |a + b + c| && (a + b + c)[|a| + i] == b[i]
  {
  }

  lemma ConcatIndexLast<T>(a: seq<T>, b: seq<T>, c: seq<T>, i: nat)
    requires i < |c|
    ensures |a| + |b| + i < |a + b + c| && (a + b + c)[|a| + |b| + i] == c[i]
  {
  }

  /** The vertices before the inner rings: the start ring and its cap, when generated. */
  function StartVertices(t0: real, n: nat, newStart: bool): seq<Vertex> {
    if newStart then RingVertices(t0, n, false) + [CapVertex(t0)] else []
  }

  lemma GeneratedVerticesParts(t0: real, t1: real, ts: seq<real>, n: nat, newStart: bool, so: bool, crease: bool)
    requires |ts| >= 1
    ensures var nt := |ts| - 1;
      && GeneratedVertices(t0, t1, ts, n, newStart, so, crease)
           == StartVertices(t0, n, newStart) + InnerVertices(ts, n, so, crease, nt)
              + (RingVertices(t1, n, RingShifted(nt, so, crease)) + [CapVertex(t1)])
      && |StartVertices(t0, n, newStart)| == (if newStart then n + 1 else 0)
      && |InnerVertices(ts, n, so, crease, nt)| == (StripCount(nt) - 1) * n
  {
    var nt := |ts| - 1;
    if nt >= 1 {
      InnerVerticesLength(ts, n, so, crease, nt);
    }
    Append3(StartVertices(t0, n, newStart) + InnerVertices(ts, n, so, crease, nt),
            RingVertices(t1, n, RingShifted(nt, so, crease)), [CapVertex(t1)]);
  }

  /**
   * Handle j of ring k names the vertex generateMesh placed for it: angular index j on
   * ring k at RingParameter(k) with RingShift(k). Ring 0 counts only when generated.
   */
  lemma GeneratedRingVertex(t0: real, t1: real, ts: seq<real>, n: nat, startRing: Option<seq<nat>>,
                            so: bool, crease: bool, v0: nat, k: nat, j: nat,
                            vs: seq<Vertex>, rings: seq<seq<nat>>)
    requires |ts| >= 1 && n >= 1
    requires startRing.Some? ==> |startRing.value| == n
    requires k <= StripCount(|ts| - 1) && j < n
    requires k == 0 ==> startRing.None?
    requires vs == GeneratedVertices(t0, t1, ts, n, startRing.None?, so, crease)
    requires rings == GeneratedRings(v0, n, startRing, StripCount(|ts| - 1))
    ensures v0 <= rings[k][j] < v0 + |vs|
    ensures vs[rings[k][j] - v0] == RingVertex(RingParameter(t0, t1, ts, k), j, RingShift(ts, so, crease, k))
  {
    var nt := |ts| - 1;
    var s := StripCount(nt);
    var newStart := startRing.None?;
    var start := StartVertices(t0, n, newStart);
    var inner := InnerVertices(ts, n, so, crease, nt);
    var end := RingVertices(t1, n, RingShifted(nt, so, crease)) + [CapVertex(t1)];
    GeneratedVerticesParts(t0, t1, ts, n, newStart, so, crease);
    assert vs == start + inner + end;
    var first := if newStart then RingHandles(v0, n) else startRing.value;
    var base := FirstNewRingBase(v0, n, newStart);
    assert rings == RingLayout(first, base, n, s);
    assert base == v0 + |start|;
    if k == 0 {
      RingVertexAt(t0, n, false, j);
      assert rings[0][j] == v0 + j;
      assert vs[j] == start[j];
      assert RingParameter(t0, t1, ts, k) == t0 && !RingShift(ts, so, crease, k);
    } else {
      RingLayoutAt(first, base, n, s, k);
      var idx := BlockOffset(k, n, j);
      assert rings[k][j] == v0 + |start| + idx;
      if k < s {
        InnerVertexAt(ts, n, so, crease, nt, k, j);
        PickVertex(vs, start, inner, end, v0, rings[k][j], idx);
        assert RingParameter(t0, t1, ts, k) == ts[k] && RingShift(ts, so, crease, k) == RingShifted(k, so, crease);
      } else {
        assert idx == |inner| + j;
        RingVertexAt(t1, n, RingShifted(nt, so, crease), j);
        ConcatIndexLast(start, inner, end, j);
        assert RingParameter(t0, t1, ts, k) == t1 && RingShift(ts, so, crease, k) == RingShifted(nt, so, crease);
      }
    }
  }

  /** The offset of angular index j in block k >= 1 of n-vertex rings. */
  lemma BlockOffset(k: nat, n: nat, j: nat) returns (idx: nat)
    requires k >= 1
    ensures idx == (k - 1) * n + j
  {
    idx := (k - 1) * n + j;
  }

  /** Handle h, at position i of the middle block, names vertex h - v0 of a + b + c. */
  lemma PickVertex<T>(vs: seq<T>, a: seq<T>, b: seq<T>, c: seq<T>, v0: nat, h: nat, i: nat)
    requires vs == a + b + c && i < |b| && h == v0 + |a| + i
    ensures v0 <= h < v0 + |vs| && vs[h - v0] == b[i]
  {
  }

  /**
   * The cap handles name the cap vertices: the start cap right after a generated start
   * ring, the end cap last of all.
   */
  lemma GeneratedCapVertices(t0: real, t1: real, ts: seq<real>, n: nat, startRing: Option<seq<nat>>,
                             so: bool, crease: bool, v0: nat)
    requires |ts| >= 1 && n >= 1
    ensures var vs := GeneratedVertices(t0, t1, ts, n, startRing.None?, so, crease);
      var cap := EndCapHandle(v0, n, startRing.None?, StripCount(|ts| - 1));
      && cap == v0 + |vs| - 1 && vs[cap - v0] == CapVertex(t1)
      && (startRing.None? ==> vs[n] == CapVertex(t0))
  {
    var nt := |ts| - 1;
    var s := StripCount(nt);
    var newStart := startRing.None?;
    var vs := GeneratedVertices(t0, t1, ts, n, newStart, so, crease);
    var start := StartVertices(t0, n, newStart);
    var inner := InnerVertices(ts, n, so, crease, nt);
    var end := RingVertices(t1, n, RingShifted(nt, so, crease)) + [CapVertex(t1)];
    GeneratedVerticesParts(t0, t1, ts, n, newStart, so, crease);
    assert vs == start + inner + end;
    NextRingBase(s, n);
    if newStart {
      assert vs[n] == start[n];
    }
  }

  // ---------------------------------------------------------------------------------
  // Half-step parity
  // ---------------------------------------------------------------------------------

  /** A freshly generated ring 0 uses phi_0, whatever start offset the caller passed. */
  lemma FreshStartRingUnshifted(startOffset: bool, crease: bool)
    ensures !RingShifted(0, EffectiveStartOffset(startOffset, None), crease)
  {
  }

  /** In crease mode no ring is shifted. */
  lemma CreaseModeUnshifted(i: nat, so: bool)
    ensures !RingShifted(i, so, true)
  {
  }

  /** Otherwise consecutive rings alternate between phi_0 and phi_0 + dphi / 2. */
  lemma ShiftAlternates(i: nat, so: bool)
    ensures RingShifted(i + 1, so, false) != RingShifted(i, so, false)
  {
  }

  /** Outside crease mode the end-offset flag says whether the end ring is shifted. */
  lemma EndOffsetIsEndRingShift(so: bool, nt: nat)
    ensures EndOffset(so, nt) == RingShifted(nt, so, false)
  {
  }

  /**
   * Chaining: a segment started from the previous segment's end ring and end-offset flag
   * shifts its ring i exactly as ring nt + i of one long segment would be.
   */
  lemma ChainedParity(so: bool, nt: nat, i: nat)
    ensures RingShifted(i, EndOffset(so, nt), false) == RingShifted(nt + i, so, false)
  {
    assert (nt + i) % 2 == (nt % 2 + i % 2) % 2;
  }

  // ---------------------------------------------------------------------------------
  // Euler characteristic
  // ---------------------------------------------------------------------------------

  /** The number of face sides, counted over faces k, k + 1, ... */
  function SidesFrom(faces: seq<Face>, k: nat): nat
    decreases |faces| - k
  {
    if k < |faces| then Sides(faces[k]) + SidesFrom(faces, k + 1) else 0
  }

  /** The faces of b, counted inside a + b. */
  lemma {:induction false} SidesFromShift(a: seq<Face>, b: seq<Face>, i: nat)
    ensures SidesFrom(a + b, |a| + i) == SidesFrom(b, i)
    decreases |b| - i
  {
    if i < |b| {
      SidesFromShift(a, b, i + 1);
      assert (a + b)[|a| + i] == b[i];
    }
  }

  lemma {:induction false} SidesFromAppend(a: seq<Face>, b: seq<Face>, k: nat)
    requires k <= |a|
    ensures SidesFrom(a + b, k) == SidesFrom(a, k) + SidesFrom(b, 0)
    decreases |a| - k
  {
    if k < |a| {
      SidesFromAppend(a, b, k + 1);
      assert (a + b)[k] == a[k];
    } else {
      SidesFromShift(a, b, 0);
    }
  }

  lemma {:induction false} SidesFromUniform(faces: seq<Face>, k: nat, x: nat)
    requires k <= |faces|
    requires forall i :: 0 <= i < |faces| ==> Sides(faces[i]) == x
    ensures SidesFrom(faces, k) == x * (|faces| - k)
    decreases |faces| - k
  {
    if k < |faces| {
      SidesFromUniform(faces, k + 1, x);
      NextRingBase(|faces| - k, x);
    }
  }

  lemma StripsAreQuads(rings: seq<seq<nat>>, n: nat)
    requires UniformRings(rings, n)
    ensures forall i :: 0 <= i < |Strips(rings, n)| ==> Sides(Strips(rings, n)[i]) == 4
  {
    forall i | 0 <= i < |Strips(rings, n)|
      ensures Sides(Strips(rings, n)[i]) == 4
    {
      var k, j := StripsMember(rings, n, Strips(rings, n)[i]);
      StripWinding(rings[k - 1], rings[k], j);
    }
  }

  /** A fan of n triangles has 3n sides. */
  lemma FanSides(cap: nat, c: seq<nat>)
    requires |c| >= 1
    ensures SidesFrom(StartFan(cap, c), 0) == 3 * |c| && SidesFrom(EndFan(cap, c), 0) == 3 * |c|
  {
    StartFanWinding(cap, c, 0);
    EndFanWinding(cap, c, 0);
    SidesFromUniform(StartFan(cap, c), 0, 3);
    SidesFromUniform(EndFan(cap, c), 0, 3);
  }

  /** The strips over s + 1 rings have 4 s n sides. */
  lemma StripsSides(rings: seq<seq<nat>>, n: nat)
    requires UniformRings(rings, n) && |rings| >= 1
    ensures SidesFrom(Strips(rings, n), 0) == 4 * ((|rings| - 1) * n)
  {
    StripsLength(rings, n);
    StripsAreQuads(rings, n);
    SidesFromUniform(Strips(rings, n), 0, 4);
  }

  /** The sides of three consecutive runs of faces add up. */
  lemma SidesAppend3(a: seq<Face>, b: seq<Face>, c: seq<Face>, x: nat, y: nat, z: nat)
    requires SidesFrom(a, 0) == x && SidesFrom(b, 0) == y && SidesFrom(c, 0) == z
    ensures SidesFrom(a + b + c, 0) == x + y + z
  {
    SidesFromAppend(a + b, c, 0);
    SidesFromAppend(a, b, 0);
  }

  /** The faces of a generated tube: start fan, strips, end fan. */
  lemma GeneratedTubeParts(v0: nat, n: nat, s: nat)
    requires n >= 1 && s >= 1
    ensures var rings := GeneratedRings(v0, n, None, s);
      GeneratedFaces(v0, n, None, s)
        == StartFan(v0 + n, rings[0]) + Strips(rings, n) + EndFan(EndCapHandle(v0, n, true, s), rings[s])
  {
  }

  /** A generated tube has two fans of n triangles and s strips of n quads. */
  lemma GeneratedSides(v0: nat, n: nat, s: nat, faces: seq<Face>)
    requires n >= 1 && s >= 1
    requires faces == GeneratedFaces(v0, n, None, s)
    ensures SidesFrom(faces, 0) == 3 * n + 4 * (s * n) + 3 * n
  {
    var rings := GeneratedRings(v0, n, None, s);
    GeneratedTubeParts(v0, n, s);
    FanSides(v0 + n, rings[0]);
    FanSides(EndCapHandle(v0, n, true, s), rings[s]);
    StripsSides(rings, n);
    SidesAppend3(StartFan(v0 + n, rings[0]), Strips(rings, n), EndFan(EndCapHandle(v0, n, true, s), rings[s]),
      3 * n, 4 * (s * n), 3 * n);
  }

  /**
   * A generated tube (own start ring) has V - E + F == 2, with E = (total sides) / 2,
   * each undirected edge being the side of two faces.
   */
  lemma GeneratedEuler(t0: real, t1: real, ts: seq<real>, n: nat, so: bool, crease: bool, v0: nat,
                       vs: seq<Vertex>, faces: seq<Face>)
    requires |ts| >= 1 && n >= 1
    requires vs == GeneratedVertices(t0, t1, ts, n, true, so, crease)
    requires faces == GeneratedFaces(v0, n, None, StripCount(|ts| - 1))
    ensures SidesFrom(faces, 0) % 2 == 0
    ensures |vs| - SidesFrom(faces, 0) / 2 + |faces| == 2
  {
    var s := StripCount(|ts| - 1);
    GeneratedCounts(t0, t1, ts, n, None, so, crease, v0);
    GeneratedSides(v0, n, s, faces);
    EulerArithmetic(s, n, SidesFrom(faces, 0), |vs|, |faces|);
  }

  lemma EulerArithmetic(s: nat, n: nat, sides: nat, v: nat, f: nat)
    requires sides == 3 * n + 4 * (s * n) + 3 * n
    requires v == (s + 1) * n + 2 && f == (s + 2) * n
    ensures sides % 2 == 0 && v - sides / 2 + f == 2
  {
    assert sides == 2 * ((2 * s + 3) * n);
  }
}
