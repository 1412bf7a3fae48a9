# Canal surfaces of AnaMorph: mesh skeleton, bounding-box state and self-intersection coefficients

This project is a Dafny model of the discrete core of AnaMorph's canal surfaces
(`tsrc/CanalSurface_impl.hh`). A canal surface is a tube of varying radius
around a spine curve. The model covers three parts of that file, with proofs.

1. **`CanalSurface::generateMesh`**
   - The mesher samples the spine parameter with a step that adapts to the radius.
   - It pops the overshooting sample and spreads the overshoot ("slack") back over the other samples.
   - It places one ring of `n_phi_segments` vertices per sample and joins consecutive rings by quad strips.
   - It closes the tube with a triangle fan around a centroid vertex at each end.
   - It reports the end ring, the end cap vertex and the end-offset flag, so that the next segment of a chain can continue from them.
   - Modules `Sampling`, `MeshSink`, `RingMesh` and `RingMeshProps` hold this part.
   - Vertex positions are abstract. A vertex records its ring parameter, its angular index and whether its ring carries the half-step angular shift, or that it is a centroid (cap) vertex.
   - The mesh container is a class whose vertex handles are insertion indices.
2. **`BezierCanalSurface`**: the spine and radius state, `clipToInterval`, and the bounding box guarded by `bb_set`. Module `BezierSurface` holds this part.
   - Curves, radius functors and boxes are external objects. They are recorded as terms saying how they were built.
3. **`BLRCanalSurface`**, a Bezier spine with a linearly interpolated radius.
   - It builds the divided-difference matrices `F_i` of the Bernstein basis polynomials and the table `G(i, j) = B_j(y) F_i - B_i(y) F_j`.
   - It builds the single-tube distance vector `dist_nt` and the two-tube distance vector.
   - It answers `getMinRadius` and `getMaxRadius`.
   - It fixes the degrees of the polynomial systems it hands to the solver.
   - Modules `PowerPoly`, `SelfIntersection` and `Degrees` hold this part. Module `DistanceValue` proves what `dist_nt` is as a polynomial: (x - y) dist_nt(x, y) = gamma(x) S(y) - gamma(y) S(x).
   - Polynomials are exact real coefficient sequences in the power basis.
   - The power coefficients of the Bernstein basis of the spine degree come from the external polynomial engine, so they are an input (`basis`).

`Outcomes` holds `Option`, `Result` and `Outcome`. The source throws in three places; the model returns a failure value there instead.

The comment at `tsrc/CanalSurface_impl.hh:322-325` spreads the slack so that the last two rings are not too close, by subtracting i*slack/ntsegments from sample i (lines 334-336). The code guarantees strictly increasing samples only when each step exceeds the share of slack subtracted per segment. The model follows the code:
- `Sampling.IncreasingIff` states the exact condition.
- `Sampling.UniformWithConstantStep` proves the uniform, increasing case.
- `Sampling.VaryingStepNotIncreasing` exhibits a varying step on [0, 1] whose samples are `[0, -0.245, 1]`.

## Model

| member | source | states |
|---|---|---|
| Sampling.SampleParameters | tsrc/CanalSurface_impl.hh:301-339 | The samples come from the raw chain the loop walked from t0 with the step function, stopping at the first value not below t1. `ntsegments` is the chain length minus one. Each kept value is moved back by its share of the slack, and the last sample is exactly t1. |
| Sampling.WalkSteps | tsrc/CanalSurface_impl.hh:301-320 | The pushed values start at t0. Each value below t1 is followed by itself plus its step. The last value is the first one not below t1, and the loop terminates because every step is at least a positive minimum. |
| Sampling.SpreadSlack | tsrc/CanalSurface_impl.hh:326-339 | The pop, the in-place `-=` loop and the final push of t1 yield the spread samples, with ntsegments = number of kept values. |
| Sampling.SpreadEndpoints | tsrc/CanalSurface_impl.hh:326-339 | There are ntsegments + 1 samples and the last is exactly t1. When the loop ran at least once, the first sample is t0. |
| Sampling.SlackBounds | tsrc/CanalSurface_impl.hh:303-326 | The loop runs at least once iff t0 < t1. The slack satisfies 0 <= slack < the last step taken. |
| Sampling.SpreadGap | tsrc/CanalSurface_impl.hh:334-336 | The gap between samples i-1 and i is step(raw[i-1]) - slack / ntsegments. |
| Sampling.LastGapPositive | tsrc/CanalSurface_impl.hh:326-339 | The last two samples are strictly increasing. This is what the slack spreading is for. |
| Sampling.IncreasingIff | tsrc/CanalSurface_impl.hh:334-336 | The samples are strictly increasing iff every step taken exceeds slack / ntsegments. |
| Sampling.ConstantStepChain | tsrc/CanalSurface_impl.hh:303-320 | With a constant step s, raw value i is t0 + i*s. |
| Sampling.UniformWithConstantStep | tsrc/CanalSurface_impl.hh:301-339 | With a constant step and t0 < t1, sample i is exactly t0 + i*(t1 - t0)/ntsegments, so the samples are strictly increasing. |
| Sampling.VaryingStepNotIncreasing | tsrc/CanalSurface_impl.hh:334-336 | A concrete step function (0.01 below 0.005, else 1.5) satisfies the step bound. On [0, 1] its samples are [0, -0.245, 1], which are not increasing. |
| MeshSink.Mesh.InsertVertex | tsrc/CanalSurface_impl.hh:375 | Inserting a vertex returns the number of vertices before the call as its handle, appends the vertex and leaves the faces alone. |
| MeshSink.Mesh.InsertFace | tsrc/CanalSurface_impl.hh:382 | Inserting a face appends it and leaves the vertices alone. |
| RingMesh.CanalSurface.GenerateMesh | tsrc/CanalSurface_impl.hh:255-525 | A supplied start ring of the wrong size fails with `StartRingSizeMismatch`, and the mesh is unchanged. Otherwise the mesh gains exactly `GeneratedVertices` and `GeneratedFaces`, in insertion order. The start offset is forced to false for a fresh start ring. Exactly the requested chaining outputs are written: the end-offset flag (start offset XOR an even number of rings), the end ring's handles, and the end cap handle. The end cap is always inserted. |
| RingMesh.InsertStart | tsrc/CanalSurface_impl.hh:350-386 | A fresh start ring gets n consecutive new handles at t0, unshifted, then its centroid vertex, then the start fan around that centroid. |
| RingMesh.InsertNextRing | tsrc/CanalSurface_impl.hh:406-450 | Ring i gets n consecutive new handles at sample i with the parity rule's shift, then the strip from the previous ring to it. |
| RingMesh.InsertInnerRings | tsrc/CanalSurface_impl.hh:406-450 | After the loop the mesh holds the inner rings 1..ntsegments-1 in order and the strips between consecutive rings. The current ring is the last inner ring, or ring 0 when there is none. |
| RingMesh.InsertEnd | tsrc/CanalSurface_impl.hh:453-505 | The end ring at t1 is inserted, then its centroid. The centroid's handle directly follows the ring. Then come the last strip and the end fan. |
| RingMesh.InsertBody | tsrc/CanalSurface_impl.hh:403-505 | The inner rings and the end produce the ring layout's strips and the end fan. The end cap handle is the first handle after all generated rings. |
| RingMesh.InsertRing | tsrc/CanalSurface_impl.hh:372-376 | n ring vertices receive consecutive handles starting at the current vertex count. |
| RingMesh.InsertStrip | tsrc/CanalSurface_impl.hh:443-449 | The n quads between two rings are inserted, the wrap-around quad last. |
| RingMesh.InsertStartFan | tsrc/CanalSurface_impl.hh:381-385 | The start fan's triangles are inserted in the source's order. |
| RingMesh.InsertEndFan | tsrc/CanalSurface_impl.hh:501-505 | The end fan's triangles are inserted in the source's order. |
| RingMesh.CanalSurface.FromCurve | tsrc/CanalSurface_impl.hh:62-80 | The spine and radius are stored, and the domain is taken from the curve. |
| RingMesh.CanalSurface.FromComponents | tsrc/CanalSurface_impl.hh:82-100 | The spine is built from three component functors over the given domain, and the domain fields equal it. |
| RingMesh.CanalSurface.Copy | tsrc/CanalSurface_impl.hh:102-116 | All four fields are copied. |
| RingMesh.CanalSurface.Assign | tsrc/CanalSurface_impl.hh:118-135 | All four fields take delta's values. |
| RingMesh.CanalSurface.SetSpineCurve | tsrc/CanalSurface_impl.hh:231-236 | Only the spine changes; the domain fields keep their values. |
| RingMesh.CanalSurface.SetRadiusFunctor | tsrc/CanalSurface_impl.hh:245-250 | Only the radius functor changes. |
| RingMeshProps.GeneratedCounts | tsrc/CanalSurface_impl.hh:350-505 | With S strips (S = ntsegments, or 1 when ntsegments = 0), a fresh start gives (S+1)n + 2 vertices and (S+2)n faces. A supplied start ring gives Sn + 1 vertices and (S+1)n faces. |
| RingMeshProps.StripWinding | tsrc/CanalSurface_impl.hh:443-449 | A strip has exactly n quads. Quad j is (L[j], L[(j+1)%n], C[(j+1)%n], C[j]), including the wrap-around. |
| RingMeshProps.StartFanWinding | tsrc/CanalSurface_impl.hh:381-385 | The start fan has n triangles, (cap, c[(j+1)%n], c[j]). |
| RingMeshProps.EndFanWinding | tsrc/CanalSurface_impl.hh:501-505 | The end fan has n triangles with the opposite winding, (cap, c[j], c[(j+1)%n]). |
| RingMeshProps.GeneratedFacesAreTube | tsrc/CanalSurface_impl.hh:350-505 | The faces are the optional start fan, the strips between consecutive rings and the end fan, over the generated rings. |
| RingMeshProps.StripQuadPaired | tsrc/CanalSurface_impl.hh:443-499 | Every directed side of a strip quad has its reverse in some face of the tube, except forward sides of an open ring 0. |
| RingMeshProps.StartTrianglePaired | tsrc/CanalSurface_impl.hh:381-385 | Every directed side of a start-fan triangle has its reverse in some face of the tube. |
| RingMeshProps.EndTrianglePaired | tsrc/CanalSurface_impl.hh:501-505 | Every directed side of an end-fan triangle has its reverse in some face of the tube. |
| RingMeshProps.TubePaired | tsrc/CanalSurface_impl.hh:381-505 | In a tube every directed side's reverse is a side of some face, except the forward sides of ring 0 when no start fan closes it. |
| RingMeshProps.GeneratedMeshPaired | tsrc/CanalSurface_impl.hh:350-505 | The generated faces are consistently oriented. With a fresh start the surface is closed; with a supplied start ring only that ring's sides are open. |
| RingMeshProps.StripsFirst | tsrc/CanalSurface_impl.hh:443-449 | The strips begin with the strip between ring 0 and ring 1. |
| RingMeshProps.SuppliedStartRingReused | tsrc/CanalSurface_impl.hh:391-400 | A supplied start ring is used verbatim as ring 0. Without a start fan, face j is the quad from the supplied ring to the first new ring. |
| RingMeshProps.GeneratedRingVertex | tsrc/CanalSurface_impl.hh:367-486 | Handle j of ring k names a vertex inserted by this call. That vertex lies at ring k's parameter (t0, sample k or t1), at angle index j, with ring k's shift. |
| RingMeshProps.GeneratedCapVertices | tsrc/CanalSurface_impl.hh:378-491 | The end cap handle is the last inserted vertex, the centroid at t1. A fresh start puts the centroid at t0 right after ring 0. |
| RingMeshProps.FreshStartRingUnshifted | tsrc/CanalSurface_impl.hh:367-369 | A freshly generated ring 0 is unshifted, whatever start offset the caller passed. |
| RingMeshProps.CreaseModeUnshifted | tsrc/CanalSurface_impl.hh:409-421 | In crease mode no ring is shifted. |
| RingMeshProps.ShiftAlternates | tsrc/CanalSurface_impl.hh:409-421 | Outside crease mode consecutive rings alternate between phi_0 and phi_0 + dphi/2. |
| RingMeshProps.EndOffsetIsEndRingShift | tsrc/CanalSurface_impl.hh:463-520 | Outside crease mode the end-offset flag equals the end ring's shift. |
| RingMeshProps.ChainedParity | tsrc/CanalSurface_impl.hh:516-520 | A segment started from the previous end-offset flag shifts its ring i exactly as ring ntsegments + i of one long segment. |
| RingMeshProps.GeneratedSides | tsrc/CanalSurface_impl.hh:381-505 | A fresh-start mesh with S strips has 3n + 4Sn + 3n face sides. |
| RingMeshProps.GeneratedEuler | tsrc/CanalSurface_impl.hh:350-505 | For a fresh-start mesh the face sides are even, and V - sides/2 + F = 2. With the pairing above, this is Euler's formula for the closed tube. |
| BezierSurface.BezierCanalSurface.constructor | tsrc/CanalSurface_impl.hh:532-540 | Zero curve and radius, domain [0, 1], `bb_set` false. |
| BezierSurface.BezierCanalSurface.FromCurve | tsrc/CanalSurface_impl.hh:542-552 | The curve and radius are stored in both spine copies, with domain [0, 1] and `bb_set` false. |
| BezierSurface.BezierCanalSurface.FromComponents | tsrc/CanalSurface_impl.hh:554-566 | The curve is built from three components, with domain [0, 1] and `bb_set` false. |
| BezierSurface.BezierCanalSurface.FromControlPoints | tsrc/CanalSurface_impl.hh:568-581 | The curve is built from control points, with domain [0, 1] and `bb_set` false. |
| BezierSurface.BezierCanalSurface.Copy | tsrc/CanalSurface_impl.hh:583-591 | The spine, radius, box and `bb_set` are copied. |
| BezierSurface.BezierCanalSurface.Assign | tsrc/CanalSurface_impl.hh:593-603 | The spine, radius, box and `bb_set` take delta's values. |
| BezierSurface.BezierCanalSurface.ClipToInterval | tsrc/CanalSurface_impl.hh:618-646 | It fails iff lo > hi, and then changes nothing. Otherwise the radius is clipped along the old spine, then the spine is clipped. Both spine copies agree afterwards. The domain, box and `bb_set` are untouched. |
| BezierSurface.BezierCanalSurface.UpdateBoundingBox | tsrc/CanalSurface_impl.hh:648-666 | `bb_set` becomes true and the box becomes the current spine's box at the given depth, grown by the maximum radius, then by 2.5% but at least 1e-3. |
| BezierSurface.BezierCanalSurface.GetBoundingBox | tsrc/CanalSurface_impl.hh:668-678 | It succeeds iff `bb_set`, returning the stored box; otherwise it fails with `BoxNotUpdated`. |
| PowerPoly.PowerCoeffMatrix | tsrc/CanalSurface_impl.hh:806-811 | The `+=` triple loop leaves F(m, l) = b[m+l+1] where m + l <= n-1 and 0 elsewhere, every index in bounds. |
| PowerPoly.FRowEval | tsrc/CanalSurface_impl.hh:809-811 | Row m of F, evaluated in y, is the tail b[m+1..] of b evaluated in y. |
| PowerPoly.DividedDifference | tsrc/CanalSurface_impl.hh:803-814 | (x - y) F(x, y) = b(x) - b(y) for every polynomial b. So F is the divided difference of b. |
| SelfIntersection.InitGlobalSelfIntersectionData | tsrc/CanalSurface_impl.hh:788-832 | The loops produce exactly the table G(i, j) = B_j(y) F_i - B_i(y) F_j for i, j = 0..n. |
| SelfIntersection.DividedDifferenceMatrices | tsrc/CanalSurface_impl.hh:803-814 | For every basis polynomial B_i, the matrix built is its F_i. |
| SelfIntersection.GRow | tsrc/CanalSurface_impl.hh:819-831 | The inner loop over j produces row i of the table G. |
| SelfIntersection.GTableShape | tsrc/CanalSurface_impl.hh:819-831 | Each G(i, j) has n rows of 2n coefficients. |
| SelfIntersection.GDiagonalZero | tsrc/CanalSurface_impl.hh:829 | Every coefficient of G(i, i) is zero. |
| SelfIntersection.GAntisymmetric | tsrc/CanalSurface_impl.hh:829 | G(i, j) = -G(j, i), coefficient by coefficient. |
| SelfIntersection.GTableAntisymmetric | tsrc/CanalSurface_impl.hh:819-831 | The antisymmetry holds for the whole table at each coefficient position. |
| SelfIntersection.AccumulatedStart | tsrc/CanalSurface_impl.hh:957-958 | The accumulation starts from the zero polynomial. |
| SelfIntersection.AccumulatedStep | tsrc/CanalSurface_impl.hh:974-982 | One `+=` step adds G(i, j) * gamma[i] to the running sum. |
| SelfIntersection.GlobalDistance | tsrc/CanalSurface_impl.hh:957-982 | The double loop from zero polynomials yields, for each component c, the sum over i, j of G(i, j) * gamma_c[i]. |
| SelfIntersection.DistanceNTConstant | tsrc/CanalSurface_impl.hh:974-982 | Because G is antisymmetric, a spine component whose coefficients are all equal has a zero `dist_nt`. |
| SelfIntersection.AntisymmetricSumZero | tsrc/CanalSurface_impl.hh:974-982 | The row-major sum of an antisymmetric matrix, which is the order the double loop adds in, is zero. |
| SelfIntersection.PairDistance | tsrc/CanalSurface_impl.hh:1056-1067 | The double loop fills entry (i, j) of component c with gamma_c[i] - delta_c[j], for every i, j and all three components. |
| SelfIntersection.BLRCanalSurface.Default | tsrc/CanalSurface_impl.hh:738-742 | The spine is the base class's zero curve, three zero polynomials of the spine degree, and G is the table of that degree. |
| SelfIntersection.BLRCanalSurface.FromComponents | tsrc/CanalSurface_impl.hh:751-761 | The spine and radii are stored, and G is the table of the spine degree. |
| SelfIntersection.BLRCanalSurface.FromControlPoints | tsrc/CanalSurface_impl.hh:763-769 | Component c's coefficients are the control points' c-th coordinates, and G is the table. |
| SelfIntersection.BLRCanalSurface.Copy | tsrc/CanalSurface_impl.hh:771-776 | The spine and radii are copied, and G is recomputed. |
| SelfIntersection.BLRCanalSurface.Assign | tsrc/CanalSurface_impl.hh:778-784 | The spine and radii take delta's values, and G is kept. |
| SelfIntersection.BLRCanalSurface.GetMinRadius | tsrc/CanalSurface_impl.hh:846-852 | The result is one of the two radii and at most both. |
| SelfIntersection.BLRCanalSurface.GetMaxRadius | tsrc/CanalSurface_impl.hh:854-860 | The result is one of the two radii and at least both. |
| SelfIntersection.BLRCanalSurface.ComputeGlobalDistance | tsrc/CanalSurface_impl.hh:957-982 | The surface's `dist_nt`, from its own table and spine. |
| SelfIntersection.BLRCanalSurface.ComputePairDistance | tsrc/CanalSurface_impl.hh:1056-1067 | The two-tube distance coefficients between this spine and delta's. |
| PowerPoly.EvalMul | tsrc/CanalSurface_impl.hh:829 | A product polynomial evaluates, at every t, to the product of the factors' values. |
| DistanceValue.GEntryValue | tsrc/CanalSurface_impl.hh:817-831 | (x - y) G(i, j)(x, y) = B_i(x) B_j(y) - B_i(y) B_j(x), for every basis and every x, y. |
| DistanceValue.PairValue | tsrc/CanalSurface_impl.hh:974-982 | One `+=` step raises the value of `dist_nt` at (x, y) by gamma[i] times the value of G(i, j). |
| DistanceValue.DistanceNTValue | tsrc/CanalSurface_impl.hh:956-982 | (x - y) dist_nt(x, y) = gamma(x) S(y) - gamma(y) S(x), with gamma the spine component and S the sum of the basis polynomials, for any basis. |
| DistanceValue.DistanceNTDivided | tsrc/CanalSurface_impl.hh:956-982 | For a basis that sums to one at x and at y, (x - y) dist_nt(x, y) = gamma(x) - gamma(y), so dist_nt is the distance vector with the trivial solution x = y factored out. |
| SelfIntersection.MinRadiusAtMostMax | tsrc/CanalSurface_impl.hh:846-860 | getMinRadius <= getMaxRadius. |
| Degrees.Derivative | tsrc/CanalSurface_impl.hh:687-692 | The derivative lowers the degree by one, except that a constant's derivative is the zero constant. That is why zDeg has two cases. |
| Degrees.ElevateValue | tsrc/CanalSurface_impl.hh:930 | Degree elevation to any degree at least the current one keeps the polynomial's value. |
| Degrees.QuotientNumerator | tsrc/CanalSurface_impl.hh:702 | p' q - p q' of two degree-2d polynomials fits degree zDeg(d). |
| Degrees.RenderTarget | tsrc/CanalSurface_impl.hh:692-702 | z of checkRenderVector has exactly zDeg + 1 coefficients, zDeg = 2 derivDeg + (2 derivDeg - 1 if positive). |
| Degrees.CrossSquare | tsrc/CanalSurface_impl.hh:901-914 | The squared cross product of dgamma and d2gamma, scaled by rmax^2, has degree 2(derivDeg + deriv2Deg). |
| Degrees.TangentCube | tsrc/CanalSurface_impl.hh:919-926 | The cube of the tangent's squared norm has degree 6 derivDeg. |
| Degrees.LocalSelfIntersection | tsrc/CanalSurface_impl.hh:880-935 | p_lsi has degree 6 derivDeg. |
| Degrees.CrossSquareElevation | tsrc/CanalSurface_impl.hh:930 | Elevating from 2(derivDeg + deriv2Deg) to 6 derivDeg is well-defined, raises the degree by 2n and keeps the value. |
| Degrees.GlobalSystem | tsrc/CanalSurface_impl.hh:987-993 | p and q built from `dist_nt` and dgamma fit the declared bidegrees (2n-1+derivDeg, 2n-1) and (2n-1, 2n-1+derivDeg). |
| Degrees.EdgePolynomial | tsrc/CanalSurface_impl.hh:1015-1023 | An edge polynomial curve'(t) . (curve(t) - point) has degree n + derivDeg. |
| Degrees.EdgeVanishesAtOwnPoint | tsrc/CanalSurface_impl.hh:1015-1023 | The edge polynomial against the curve's own point gamma(a) evaluates to zero at t = a. This is the trivial solution at the corners. |
| Degrees.GlobalEdges | tsrc/CanalSurface_impl.hh:1005-1023 | The two edge polynomials at gamma(0) and gamma(1) have degree n + derivDeg. |
| Degrees.PowerDifferenceValue | tsrc/CanalSurface_impl.hh:1061-1067 | The power-basis counterpart of the two-tube distance coefficients has value gamma_c(x) - delta_c(y). |
| Degrees.PairSystem | tsrc/CanalSurface_impl.hh:1072-1078 | p and q of two tubes have exactly the declared bidegrees (n + derivDeg, n) and (n, n + derivDeg). |
| Degrees.PairEdges | tsrc/CanalSurface_impl.hh:1107-1125 | The four edge polynomials each have degree n + derivDeg. |

## Left out

- Floating point: all arithmetic is exact `real`. Rounding in the sampler and in the coefficient loops is not modelled.
- Vertex positions: the cos/sin ring positions, the render and Frenet frames, `spineCurveApproxArcLength` and the step length h / arclength are geometry on external curves. The step is an abstract function with a positive lower bound.
- RingMesh.CanalSurface.GenerateMesh: requires n_phi_segments >= 1. With 0 the source indexes `current_circle[n_phi_segments - 1]` out of range, so its behaviour is undefined.
- RingMeshProps.GeneratedMeshPaired: states that each directed side's reverse exists, not that each edge is shared by exactly two faces. The Euler count in GeneratedEuler counts edges as face sides / 2.
- Debug output (`debugl`, `print_debugl`) is I/O.
- `checkRenderVector`: root isolation by Bezier clipping, the rational minimum `f_min` and its float divisions are left out. Only the degree of its target polynomial is modelled.
- Polynomial engine: `multiply`, `square`, `getDerivative`, `elevateDegree`, `convertBasis`, `convertFromPowerBasis`, `computeBernsteinBasisPoly` and `BernsteinConvertToBiPoly` are defined in files that are not part of this model. The model computes in the power basis with its own exact `Mul`, `Derivative` and zero-padding `Elevate`. The degree lemmas in `Degrees` are about these power-basis counterparts, not about Bernstein coefficients.
- The Bernstein basis power coefficients (`basis`) are an input. Its partition of unity is not assumed: `DistanceValue.DistanceNTValue` holds for any basis, and `DistanceValue.DistanceNTDivided` takes the sum to one at the two points as a hypothesis.
- SelfIntersection.PairDistance: its entries are Bernstein coefficients, as in the source. The value identity `Degrees.PowerDifferenceValue` is stated for the power-basis counterpart.
- Degrees.GlobalSystem, Degrees.PairSystem, Degrees.GlobalEdges and Degrees.PairEdges state degrees only. The values of p and q are not stated, and of the edge polynomials only `Degrees.EdgeVanishesAtOwnPoint` is. GlobalSystem combines a `dist_nt` from a table of any basis with a tangent that reads the spine in the power basis, so only its shape corresponds to the source's.
- `dist_trivial` (lines 960-970) is computed and never used.
- Bounding-box arithmetic: `getBoundingBox(depth)` subdivision and `BoundingBox::extend` are kept as terms.
- Clipping internals: `radius_functor.clipToInterval` and `BezierCurve::clipToInterval` are kept as terms.
- SelfIntersection.BLRCanalSurface.Default: the radii of the default-constructed interpolator are not fixed, because the interpolator's default constructor is not part of this model.
- SelfIntersection.BLRCanalSurface: the bounding box (`bb`, `bb_set`) and the domain that the copy constructor and `operator=` carry through the base class (lines 583-603, 771-784) are modelled only in `BezierSurface.BezierCanalSurface`. This class holds the spine, the radii, the basis and G.
- The `BLRCanalSurface(spine_curve, r0, r1)` constructor is `FromComponents` here, since a Bezier spine is represented by its three coefficient sequences.
- Evaluation delegators and getters (`spineCurveEval*`, `radiusEval`, `getDomain`, `setDomain`, `getSpineCurve`, `getRadiusFunctor`, `getRadii`, `spineCurveCompute*`) only forward to external objects.
- The duplicated base/derived `spine_curve` of `BezierCanalSurface` is kept as two fields that `Valid` requires to agree.
