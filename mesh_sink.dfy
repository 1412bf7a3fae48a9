/**
 * The external mesh container, reduced to what the canal-surface mesher uses:
 * inserting a vertex yields a fresh handle, inserting a face records it.
 * Handles are the insertion indices of the vertices.
 */
module MeshSink {

  /**
   * Where a vertex was placed, without the floating-point position: a ring vertex
   * at parameter t, angular index j, with or without the half-step angular shift
   * (phi_0 + dphi/2 instead of phi_0), or the centroid (cap) vertex at parameter t.
   */
  datatype Vertex =
    | RingVertex(t: real, j: nat, shifted: bool)
    | CapVertex(t: real)

  datatype Face =
    | Triangle(a: nat, b: nat, c: nat)
    | Quad(a: nat, b: nat, c: nat, d: nat)

  /** The directed edge (u, v) is a side of face f, in the face's winding order. */
  predicate HasDirectedEdge(f: Face, u: nat, v: nat) {
    match f
    case Triangle(a, b, c) => (u, v) == (a, b) || (u, v) == (b, c) || (u, v) == (c, a)
    case Quad(a, b, c, d) => (u, v) == (a, b) || (u, v) == (b, c) || (u, v) == (c, d) || (u, v) == (d, a)
  }

  /** Number of sides of a face. */
  function Sides(f: Face): nat {
    if f.Triangle? then 3 else 4
  }

  class Mesh {
    var vertices: seq<Vertex>
    var faces: seq<Face>

    constructor ()
      ensures vertices == [] && faces == []
    {
      vertices, faces := [], [];
    }

    /** vertices.insert(pos): the new handle is the number of vertices before the call. */
    method InsertVertex(v: Vertex) returns (h: nat)
      modifies this
      ensures h == |old(vertices)|
      ensures vertices == old(vertices) + [v] && faces == old(faces)
    {
      h := |vertices|;
      vertices := vertices + [v];
    }

    /** faces.insert(handles...) */
    method InsertFace(f: Face)
      modifies this
      ensures faces == old(faces) + [f] && vertices == old(vertices)
    {
      faces := faces + [f];
    }
  }
}
