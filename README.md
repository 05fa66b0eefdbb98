# libPE2D in Dafny

A model of the core of libPE2D, a small 2D rigid-body physics engine written in C#. Each call
of `Scene.Step` advances the world by one time step, in a fixed order of phases:

- it refreshes every polygon's cached rotated vertices;
- the broad phase (`BroadPhase.GetPairs`) lists the pairs of bodies whose axis-aligned boxes
  overlap;
- the narrow phase (`Collision`: circle/circle, circle/polygon, polygon/polygon by separating
  axes and clipping) computes a contact manifold for each such pair;
- the manifolds that have contact points become the step's contacts;
- forces are integrated into velocities, and the contacts are initialised from their
  materials;
- `IterationTimes` passes of the sequential-impulse solver (`Manifold.ApplyImpluse`) run over
  the contacts;
- velocities are integrated into positions, a positional correction pushes overlapping bodies
  apart, and every force is cleared.

The modules follow the source files:

| module | file | models |
|---|---|---|
| `PhyMath` | `PhyMath.dfy` | `Epsilon`, `EpsilonEqual` |
| `Vectors` | `Vectors.dfy` | the part of OpenTK's `Vector2` the engine uses; square root, normalisation and rotation as parameters |
| `Vector2Ext` | `Vector2Ext.dfy` | the three `Cross` overloads |
| `Extrema` | `Extrema.dfy` | the running maximum and minimum loops, with their first-index tie rule and float sentinels |
| `Aabb` | `Aabb.dfy` | the `AABB` struct |
| `Bodies` | `Bodies.dfy` | `Circle`, `Polygon` (hull, normals, orientation cache, support point, mass), `Material`, `RigidBody` |
| `Collision` | `Collision.dfy` | the contact routines and the dispatch table |
| `Manifolds` | `Manifolds.dfy` | `Manifold`: `Solve`, `Init`, `PositionalCorrection`, the impulse solver |
| `BroadPhase` | `BroadPhase.dfy` | `BroadPhase`, `AABBCollider`, `Pair` |
| `Scenes` | `Scenes.dfy` | `Scene`: bodies, `Step` and its phases, the two integrators |

How the source's mutable objects are modelled:

- `Polygon`, `RigidBody`, `Manifold`, `BroadPhase` and `Scene` are classes whose methods update
  their fields in place.
  - Polygon arrays stay arrays. The rotated copies are `seq` fields that the methods reassign.
  - The scene's lists are `seq` fields.
- `AABB`, `Pair`, `Material` and `AABBCollider` are values: the source never updates them after
  building them.
- Each contact routine receives the manifold's `Normal`, `Penetration` and `ContactPoints` as a
  `Contact` value and returns the new one. Most routines that find no contact return the value
  they were given, as the source leaves the fields as they were. Two do not:
  - `PolygonVsPolygon` sets the normal and a penetration of 0 before it finds that no clipped
    point lies behind the reference face (Collision.cs:221-235);
  - `PolygonVsCircle` negates the normal whether or not there was contact (Collision.cs:244).

Most loops are proved against a specification function, and the properties are proved of
that function:

| loop | specification function |
|---|---|
| `GetPairs` | `Kept`, the index pairs it keeps |
| the impulse loop | `Impulses` |
| the fan-triangle sums | `AreaUpTo`, `MomentUpTo`, `InertiaUpTo` |
| the hull wrap | `Walk` over the table of `NextHull` |
| running maximum and minimum | `ArgMax`, `ArgMin`, `MaxFrom`, `MinFrom` |
| the face search of `CircleVsPolygon` | `MaxFrom` over `FaceDistances` |
| the contact loop of `PolygonVsPolygon` | `BehindOf` and `DepthSum` |
| the narrow-phase loop of `Step` | `Narrowed`, one `Collides` result per pair |

## Model

| member | source | states |
|---|---|---|
| PhyMath.Abs | PhyMath.cs:11 | Math.Abs: the result is non-negative and is x or -x |
| PhyMath.Max | Manifold.cs:33 | Math.Max: the result is at least both arguments and is one of them |
| PhyMath.EpsilonPositive | PhyMath.cs:7 | Epsilon (1e-8) is positive |
| PhyMath.EpsilonEqualReflexive | PhyMath.cs:9-12 | every value is epsilon-equal to itself |
| PhyMath.EpsilonEqualSymmetric | PhyMath.cs:9-12 | epsilon-equality is symmetric |
| PhyMath.EpsilonEqualIff | PhyMath.cs:9-12 | EpsilonEqual(a, b) holds exactly when a lies strictly within Epsilon of b, in both directions |
| PhyMath.EpsilonEqual | PhyMath.cs:9-12 | the test \|a - b\| < Epsilon; EpsilonEqualIff, EpsilonEqualReflexive and EpsilonEqualSymmetric state what it means |
| PhyMath.NonNegativeSumNotEpsilonZero | Manifold.cs:41-42 | two non-negative inverse masses whose sum passes the im_sum guard sum to at least Epsilon, so the solver's denominators are positive |
| Vectors.LengthSquared | Collision.cs:21 | a squared length is never negative |
| Vectors.SqrtPositive | Collision.cs:36-37 | the root of a positive squared distance is positive, so dividing by it is defined |
| Vectors.SqrtOfSumOfSquares | Manifold.cs:25-26 | sqrt(a² + b²) is at least a and at least -a |
| Vectors.NormalizeFactor | Shape.cs:136 | the factor Normalize scales by is positive |
| Vectors.Dots | Shape.cs:147-149 | the list of dot products with dir has one entry per vertex, in order |
| Vectors.DotLinear | Collision.cs:170 | the dot product along n of an interpolated point is the same interpolation of the end points' dot products |
| Vectors.UnitDirection | Collision.cs:36-37 | dividing a vector by its length gives a unit vector whose dot product with the vector is the length |
| Vector2Ext.CrossAntisymmetric | Vector2Ext.cs:7-10 | Cross(a, b) == -Cross(b, a) and Cross(a, a) == 0 |
| Vector2Ext.Cross | Vector2Ext.cs:7-10 | the scalar cross product of two vectors; CrossAntisymmetric states its antisymmetry |
| Vector2Ext.CrossScalarVector | Vector2Ext.cs:11-14 | a z-axis vector crossed with a vector; CrossScalarPerpendicular, CrossMixedLinear and CrossTriple state what it gives |
| Vector2Ext.CrossVectorScalar | Vector2Ext.cs:15-18 | a vector crossed with a z-axis vector; CrossScalarPerpendicular and CrossMixedAntisymmetric state what it gives |
| Vector2Ext.CrossScalarPerpendicular | Vector2Ext.cs:11-18 | Cross(z, v) and Cross(v, z) are both perpendicular to v |
| Vector2Ext.CrossMixedAntisymmetric | Vector2Ext.cs:11-18 | Cross(v, z) == -Cross(z, v) |
| Vector2Ext.CrossMixedLinear | Vector2Ext.cs:11-18 | both mixed overloads vanish at z == 0 and at the zero vector, and are linear in z |
| Vector2Ext.CrossTriple | Vector2Ext.cs:7-14 | Cross(r, Cross(w, r)) == w·\|r\|² |
| Extrema.ArgMax | Shape.cs:144-156 | the index is in range, no element is greater than the one there, and every earlier element is strictly smaller (first index on ties) |
| Extrema.ArgMin | Collision.cs:137-147 | the index is in range, no element is smaller than the one there, and every earlier element is strictly greater |
| Extrema.ArgMaxStep | Shape.cs:151-155 | one more loop step: the best index moves to i exactly when s[i] is strictly greater than the current best |
| Extrema.ArgMinStep | Collision.cs:142-146 | one more loop step: the best index moves to i exactly when s[i] is strictly smaller than the current best |
| Extrema.MaxFrom | Collision.cs:110-131 | a running maximum from a float.MinValue sentinel keeps the sentinel and index 0 on an empty list and otherwise names an index in range |
| Extrema.MinFrom | Collision.cs:136-147 | a running minimum from a float.MaxValue sentinel keeps the sentinel and index 0 on an empty list and otherwise names an index in range |
| Extrema.MaxFromIsArgMax | Collision.cs:48-63 | a running maximum from a sentinel finds the first greatest element, or keeps (sentinel, 0) when no element beats the sentinel |
| Extrema.MinFromIsArgMin | Collision.cs:136-147 | a running minimum from a sentinel finds the first least element, or keeps (sentinel, 0) when none is below it |
| Extrema.MaxFromStep | Collision.cs:58-62 | one step of a running maximum from a sentinel replaces the best on a strict increase only |
| Extrema.MinFromStep | Collision.cs:142-146 | one step of a running minimum from a sentinel replaces the best on a strict decrease only |
| Aabb.Offset | BroadPhase.cs:83-89 | width and height are unchanged, and the box moves by v.X horizontally and v.Y vertically |
| Aabb.IsIntersection | BroadPhase.cs:91-97 | the overlap test on both axes, edges included; IntersectionMeansCommonPoint, IntersectionSymmetric and TouchingIntersects state what it means |
| Aabb.IntersectionMeansCommonPoint | BroadPhase.cs:91-97 | two well-formed boxes intersect exactly when some point lies in both |
| Aabb.IntersectionSymmetric | BroadPhase.cs:91-97 | IsIntersection(a, b) exactly when IsIntersection(b, a) |
| Aabb.TouchingIntersects | BroadPhase.cs:91-97 | boxes that only touch along an edge (a.Right == b.Left) intersect |
| Aabb.OffsetPreservesIntersection | BroadPhase.cs:83-97 | moving both boxes by the same vector does not change whether they intersect |
| Aabb.ExtremaExtend | Shape.cs:215-222 | one more point moves the running minimum or maximum only when the point beats it |
| Aabb.BoundsExtend | Shape.cs:213-222 | the box of one more point is the old box extended by that point |
| Aabb.RunningBoundsIsBounds | Shape.cs:202-225 | the box built point by point has the least and greatest coordinates of the points |
| Aabb.BoundsContain | Shape.cs:202-225 | the box contains every point of the list |
| Bodies.BoundsContainAll | Shape.cs:202-225 | the cached box contains every transformed vertex |
| Aabb.BoundsAttained | Shape.cs:202-225 | each side of the box touches some point, so no smaller box contains them all |
| Bodies.Reciprocal | Shape.cs:40-41 | the inverse is zero exactly when the mass (or inertia) is zero |
| Bodies.ReciprocalInverse | Shape.cs:192-193 | off zero, the inverse times the mass is 1 |
| Bodies.DiscMassNonNegative | Shape.cs:36-39 | a disc of non-negative density has non-negative mass and inertia |
| Bodies.Circle.constructor | Shape.cs:26-29 | a new circle has the given radius and no body |
| Bodies.Circle.CalculateMass | Shape.cs:31-42 | without a body nothing changes; otherwise the body gets the disc's mass π·r²·density and inertia m·r²/2, each inverse zero exactly when the quantity is zero and the reciprocal otherwise |
| Bodies.Circle.SetOrientation | Shape.cs:44-46 | nothing changes |
| Bodies.Circle.GetAABB | Shape.cs:48-51 | the box is (-r, -r, r, r) |
| Bodies.SuccIsModulo | Shape.cs:174 | the successor index around the vertex loop is (i + 1) % count |
| Bodies.Rotated | Shape.cs:207-211 | the cache the rotation loop fills: one entry per vertex, entry i being vertex i turned by the angle |
| Bodies.Shifted | Shape.cs:187-188 | the vertices after the centroid shift: one per vertex, entry i being vertex i minus the centroid |
| Bodies.FanSums | Shape.cs:166-184 | the loop's area, inertia and centre sums are the fan-triangle sums over all vertices |
| Bodies.FanTriangle | Shape.cs:173-183 | one fan triangle adds exactly its terms to the area, inertia and centre sums |
| Bodies.Centroid | Shape.cs:166-185 | `com / area` over the fan of triangles; the origin when the area is zero |
| Bodies.RightMost | Shape.cs:77-87 | the hull starts at a vertex of greatest X, the least Y among those, and the first such index |
| Bodies.LastNeverBeats | Shape.cs:104-115 | the last hull vertex is never chosen as its own successor |
| Bodies.NextHullUpTo | Shape.cs:99-116 | the inner loop's candidate after indices 1 .. i-1 is an index below i |
| Bodies.NextHull | Shape.cs:99-116 | the vertex the inner loop picks after the current hull vertex; NextHullMoves states that it is in range and differs from the current vertex |
| Bodies.Walk | Shape.cs:95-123 | the vertex the wrap reaches after k steps through the successor table stays in range |
| Bodies.HullCloses | Shape.cs:90-123 | Polygon.Set's wrap closes: there is a vertex, and the walk from the rightmost vertex returns to it within \|vs\| steps |
| Bodies.NextHullUpToMoves | Shape.cs:99-116 | with two or more vertices, the inner loop's candidate is never the current hull vertex |
| Bodies.NextHullMoves | Shape.cs:99-119 | with two or more vertices, the wrap always moves to a different vertex in range |
| Bodies.TableUnique | Shape.cs:99-116 | the successor table of the wrap is determined by the vertices |
| Bodies.EdgeNormalPerpendicular | Shape.cs:133-138 | each edge normal (dv.Y, -dv.X) is perpendicular to its edge |
| Bodies.EdgeNormals | Shape.cs:133-138 | one normal per vertex, normal i being (dv.Y, -dv.X) of the normalised edge from vertex i to vertex (i + 1) % count |
| Bodies.EdgeNormal | Shape.cs:135-137 | the edge a → b normalised by the given normalize and turned by −90 degrees, `(dv.Y, −dv.X)` |
| Bodies.Polygon.FromVertices | Shape.cs:68-71 | the polygon holds the hull vertices, copied from the input in wrap order starting at the rightmost; the normals are the edge normals; the cache is valid for angle 0 |
| Bodies.Polygon.Box | Shape.cs:61-67 | as FromVertices, for the four corners (left, top), (right, top), (right, bottom), (left, bottom) |
| Bodies.Polygon.FindRightMost | Shape.cs:77-87 | the loop returns RightMost of the vertices |
| Bodies.Polygon.FindNextHullIndex | Shape.cs:99-116 | the inner loop returns NextHull of the current vertex, which differs from it when there are two or more vertices |
| Bodies.Polygon.GiftWrap | Shape.cs:90-123 | the wrap closes exactly when the walk from the rightmost vertex returns within \|vertices\| steps; then the hull lists that walk, once round |
| Bodies.Polygon.WrapFrom | Shape.cs:95-123 | the `while (true)` loop closes exactly when the walk from start returns within \|vertices\| steps, and then it has recorded the walk once round |
| Bodies.Polygon.Successor | Shape.cs:99-116 | the inner loop's result is the table's entry for the current vertex |
| Bodies.Polygon.Returned | Shape.cs:118-122 | a walk back at its start after n steps, not earlier, returns after exactly n steps |
| Bodies.Polygon.NoReturn | Shape.cs:95-97 | a walk that has not come back within \|steps\| steps never returns within that bound, so the hull buffer overflows |
| Bodies.Polygon.HullArrays | Shape.cs:125-138 | four fresh arrays of length outCount: the hull vertices copied from the input, and the edge normals |
| Bodies.Polygon.Set | Shape.cs:72-141 | Set succeeds exactly when the wrap closes, and changes nothing otherwise; on success the vertices are the input's hull vertices in wrap order, the normals are the edge normals, and the cache holds angle 0 |
| Bodies.Polygon.SetHull | Shape.cs:125-139 | the arrays hold the hull and its normals, and the cache key is -1 |
| Bodies.Polygon.GetSupport | Shape.cs:142-159 | the support point is the first transformed vertex with the greatest dot product along dir, and no vertex lies farther along dir |
| Bodies.Polygon.Recompute | Shape.cs:200-225 | afterwards the cache holds the rotated vertices, the rotated normals and their bounding box for angle rad |
| Bodies.Polygon.Rotate | Shape.cs:202-223 | every vertex and normal is rotated by rad, and the box returned is the bounding box of the rotated vertices |
| Bodies.Polygon.Widen | Shape.cs:202-222 | the four comparisons extend the box by the vertex; on the first vertex the vertex itself is the box, where the source's finite sentinels lose |
| Bodies.Polygon.SetOrientation | Shape.cs:196-226 | at the cached angle the rotated vertices, normals and box are left as they are; otherwise the cache is recomputed for rad; either way the cache key is rad, and a valid cache stays valid |
| Bodies.Polygon.CalculateMassAsWritten | Shape.cs:161-194 | without a body nothing changes; otherwise the vertices are shifted by their centroid, the body gets the polygon's mass and inertia, and the rotated cache is left as it was |
| Bodies.Polygon.CalculateMass | Shape.cs:161-194 | as CalculateMassAsWritten for the vertices and the mass, and the cached angle is unchanged; with a body, the cache afterwards holds the shifted vertices rotated to that angle, and without one a valid cache stays valid |
| Bodies.Polygon.ShiftVertices | Shape.cs:187-188 | every vertex is moved by -com |
| Bodies.Polygon.GetAABB | Shape.cs:228-231 | while the cache is valid, the box is the least box containing every transformed vertex |
| Bodies.OffCentreSquareCentroid | Shape.cs:171-185 | the fan sums place the centroid of the square with corners (0, 0) and (2, 2) at (1, 1) |
| Bodies.StaleCacheAfterShift | Shape.cs:187-199 | for that square at angle 0, the cache left by the shift differs from the cache of the shifted vertices |
| Bodies.RigidBody.constructor | RigidBody.cs:21-34 | the shape's Body is the new body; it has the shape and material, gravity scale 1, zero velocity, spin, force and torque, and is at the origin at angle 0; it has the shape's mass, with a polygon's vertices centred on its centroid and the polygon's whole orientation cache (angle, vertices, normals and box) left as it was |
| Bodies.RigidBody.ApplyForce | RigidBody.cs:36-39 | the force is added and the torque is unchanged |
| Bodies.RigidBody.ApplyForceAt | RigidBody.cs:41-45 | the force is added and Cross(contact, force) is added to the torque |
| Bodies.RigidBody.ClearForce | RigidBody.cs:47-51 | force and torque are zero |
| Bodies.RigidBody.ApplyImpulse | RigidBody.cs:53-57 | the velocity gains InverseMass·impulse and the spin InverseInertia·Cross(contact, impulse); a body with both inverses zero does not move |
| Bodies.RigidBody.SetMass | Shape.cs:190-193 | mass and inertia are stored with their inverses: zero for zero, the reciprocal otherwise |
| Bodies.RigidBody.SetStatic | RigidBody.cs:59-65 | mass, inertia and both inverses are zero |
| Bodies.RigidBody.SetDynamic | RigidBody.cs:67-70 | the body gets its shape's mass and inertia for the material's density |
| Collision.CircleCircleContact | Collision.cs:20-40 | no contact when the squared distance exceeds (rA + rB)², otherwise exactly one point; concentric circles get normal (1, 0), penetration rA and A's centre; otherwise a unit normal from A to B, penetration rA + rB - distance (non-negative for non-negative radii), and the point of A's rim facing B |
| Collision.CircleVsCircle | Collision.cs:15-41 | the routine computes CircleCircle of the two radii and positions |
| Collision.CircleCircle | Collision.cs:15-41 | what CircleVsCircle leaves; CircleCircleContact states its cases |
| Collision.CirclePolygonSeparated | Collision.cs:51-63 | a face farther than the radius means no contact; a contact has exactly one point, and then no face is farther than the radius |
| Collision.CirclePolygonDeep | Collision.cs:65-71 | a centre less than Epsilon outside the first face of greatest separation (every face within the radius) gets that face's negated normal, penetration equal to the radius, and the rim point along that normal |
| Collision.CirclePolygonFace | Collision.cs:73-105 | a centre at least Epsilon outside the face of greatest separation, within the radius of every face and projecting strictly between the face's end points, gets that face's negated normal, penetration radius minus separation, and the rim point along that normal |
| Collision.FaceDistances | Collision.cs:51-53 | one signed distance per face: the circle centre minus vertex i, dotted with normal i |
| Collision.CirclePolygon | Collision.cs:42-106 | what CircleVsPolygon leaves: the manifold unchanged when some face is farther than the radius, else CirclePolygonAt of the first face of greatest separation; CirclePolygonSeparated, CirclePolygonDeep and CirclePolygonFace state its cases |
| Collision.CirclePolygonAt | Collision.cs:65-105 | the deep, corner and face cases of CircleVsPolygon for a known face of greatest separation |
| Collision.GreatestFace | Collision.cs:48-63 | the face loop stops exactly when some face has the centre farther out than the radius; otherwise it returns the sentinel running maximum of the distances with its index |
| Collision.CircleVsPolygon | Collision.cs:42-106 | the routine computes CirclePolygon of the circle and the polygon's transformed vertices and normals |
| Collision.CircleVsPolygonTail | Collision.cs:65-105 | after the face search, the deep, corner and face cases are those of CirclePolygonAt |
| Collision.PolygonVsCircle | Collision.cs:241-245 | the result is CircleVsPolygon with the bodies swapped and the normal negated |
| Collision.Collides | Collision.cs:10-13 | the Dispatch table on the two shape kinds: circle–circle, circle–polygon, polygon–circle as circle–polygon with the normal negated, polygon–polygon; a polygon's transformed vertices and normals are non-empty and of one length |
| Collision.SeparationAxis | Collision.cs:108-133 | the greatest separation over A's faces and the first face attaining it |
| Collision.Separations | Collision.cs:120-124 | one separation per face i of A: normal i dotted with B's support point along -normal i minus face i's vertex in B's frame |
| Collision.IncidentIndex | Collision.cs:136-147 | the first face of the incident polygon whose normal has the least dot product with the reference normal |
| Collision.Support | Shape.cs:142-159 | GetSupport as a value: the first vertex with the greatest dot product along dir |
| Collision.FindGreatestSeparationAxis | Collision.cs:108-133 | the loop returns SeparationAxis of the two polygons' transformed vertices and normals and positions |
| Collision.FindIncidentFace | Collision.cs:134-151 | the first two face entries are the world end points of the IncidentIndex face, and the rest of the buffer is unchanged |
| Collision.NegativeProduct | Collision.cs:167 | d1·d2 < 0 exactly when d1 and d2 are non-zero with opposite signs |
| Collision.ClipPointOnPlane | Collision.cs:167-171 | for end points strictly on opposite sides, alpha lies strictly between 0 and 1 and the interpolated point lies on the clip plane |
| Collision.Lerp | Collision.cs:169-170 | the point a fraction t of the way from a to b, `a + t·(b − a)` |
| Collision.Clip | Collision.cs:152-177 | at most 2 points (so every buffer write is in bounds); 0 when both ends are in front, 2 unchanged when both are behind, the kept end and the crossing point when they straddle, and 1 when one end is on the plane and the other is in front |
| Collision.ClipResult | Collision.cs:152-177 | Clip as a value: at most 2 points; none exactly when both ends are in front; one exactly when one end is on the plane and the other in front; two points both on or behind the plane |
| Collision.ClipStaysInside | Collision.cs:167-171 | a clip never leaves a half-plane that holds both ends of the segment |
| Collision.FaceClip | Collision.cs:206-233 | the incident face clipped to the side plane through v1, then to the one through v2; None when either clip keeps fewer than 2 points, otherwise the clipped points on or behind the reference face |
| Collision.FaceClipBetween | Collision.cs:206-233 | the points FaceClip keeps are at most two, each behind the reference face and between its two side planes |
| Collision.BehindOf | Collision.cs:225-233 | the points on or behind the plane, in order, never more than were given |
| Collision.BehindOfMembers | Collision.cs:225-233 | a point is kept exactly when it is among the given points and on or behind the plane |
| Collision.BehindPair | Collision.cs:225-233 | of two clipped points, none is kept exactly when both are in front; otherwise one or two of them, each behind the face |
| Collision.DepthSum | Collision.cs:227-231 | the summed depth of points behind the plane is non-negative |
| Collision.KeptContact | Collision.cs:219-238 | the end of PolygonVsPolygon once the points behind the face are known; KeptContactMeans states what it leaves |
| Collision.KeptContactMeans | Collision.cs:219-238 | the normal is the face normal, negated when flipped; with no point behind the face the penetration is 0 and the points are as they came in; otherwise the points are the contact points and the penetration is their mean depth, never negative |
| Collision.MeanDepth | Collision.cs:231-236 | the mean depth of points behind the face is non-negative, and times the count it is the summed depth |
| Collision.FaceContact | Collision.cs:206-238 | what PolygonVsPolygon leaves for a chosen reference and incident face: unchanged when a clip keeps fewer than 2 points, otherwise KeptContact of the clipped points behind the face; FaceContactMeans states what it leaves |
| Collision.FaceContactMeans | Collision.cs:213-238 | without clipped points behind the face the points are as they came in; with them the normal is the face normal (negated when flipped), and the contact points are the one or two that FaceClip keeps |
| Collision.ReferenceFaces | Collision.cs:134-151 | the reference face's world end points, and the world end points of the incident face, whose normal has the least dot product with the reference normal |
| Collision.ReferenceContact | Collision.cs:200-238 | FaceContact of the reference face and its incident face, in world coordinates |
| Collision.ReferenceContactPoints | Collision.cs:200-238 | the points are as they came in or one or two; a manifold that came in without points leaves with some exactly when the clipping leaves points behind the reference face |
| Collision.PolygonPolygon | Collision.cs:179-240 | what PolygonVsPolygon leaves: unchanged when either separation is at least Epsilon; otherwise ReferenceContact of B's face when penetrationB > penetrationA, with the normal negated, else of A's face |
| Collision.ClipToReference | Collision.cs:196-238 | the result is ReferenceContact for the chosen reference face: the incident face found, clipped to both side planes, and the points behind the face kept |
| Collision.ClipFace | Collision.cs:206-238 | the two clips and the kept points give FaceContact of the reference face and the incident face the buffer held |
| Collision.FaceContactSteps | Collision.cs:213-238 | FaceContact is the first clip, the second clip, then KeptContact of the points behind the face |
| Collision.KeepBehind | Collision.cs:219-238 | the result is KeptContact of the clipped points that lie behind the reference face |
| Collision.GatherBehind | Collision.cs:224-233 | the loop puts the points behind the face, in order, into the first cp cells, and sums their depths |
| Collision.KeepPoint | Collision.cs:227-232 | a point behind the face goes into the next cell and its depth is added; a point in front changes nothing |
| Collision.KeepStep | Collision.cs:225-233 | one loop turn: the point is kept and its depth added exactly when it is behind the face |
| Collision.MeanOfSum | Collision.cs:236 | the mean times the count is the sum, and a non-negative sum has a non-negative mean |
| Collision.PolygonVsPolygon | Collision.cs:179-240 | the routine computes PolygonPolygon of the two polygons' transformed vertices and normals and positions |
| Collision.PolygonPolygonIs | Collision.cs:187-198 | PolygonPolygon with the two separating-axis results named: the three-way choice the routine makes |
| Collision.Dispatch | Collision.cs:10-13 | each pair of shape kinds gets its routine: CircleCircle, CirclePolygon, the swapped CirclePolygon with negated normal, or PolygonPolygon |
| Collision.CollidesPoints | Collision.cs:10-13 | whatever the shapes, a manifold that comes in without points leaves without points or with one or two |
| Collision.PolygonPolygonPoints | Collision.cs:187-238 | the points are as they came in or one or two; a manifold that came in without points leaves with some exactly when neither separation is at least Epsilon and the clipping leaves points behind the reference face |
| Manifolds.MeanRestitution | Manifold.cs:24 | the combined restitution lies between the two, at equal distance from both |
| Manifolds.CombinedFriction | Manifold.cs:25-26 | sqrt(a² + b²) is at least \|a\| and \|b\|, and its square is a² + b² |
| Manifolds.Correction | Manifold.cs:33-34 | zero up to the slop 0.01, otherwise (penetration - 0.01) / inverseMassSum · 0.2 along the normal |
| Manifolds.CorrectionKeepsCentreOfMass | Manifold.cs:36-37 | moving A by -c/mA and B by c/mB keeps the mass-weighted sum of the positions |
| Manifolds.InverseMassAlong | Manifold.cs:63-65 | the solver's denominator is positive for non-negative inverses whose mass sum passes the guard |
| Manifolds.NormalImpulse | Manifold.cs:63-66 | j >= 0 whenever normal_len <= 0 and restitution >= -1 |
| Manifolds.FrictionScalar | Manifold.cs:89 | jt when \|jt\| < j·us, else -(j·uk); its magnitude is at most j·max(us, uk) |
| Manifolds.FrictionBounds | Manifold.cs:89 | Coulomb's law: the friction impulse never exceeds the normal impulse times the larger coefficient |
| Manifolds.Tangent | Manifold.cs:73-77 | rv minus its part along the normal; the zero vector when its Length under sqrt is 0, otherwise that part normalised |
| Manifolds.Push | RigidBody.cs:55 | the velocity plus InverseMass·impulse |
| Manifolds.Turn | RigidBody.cs:56 | the angular velocity plus InverseInertia·Cross(arm, impulse) |
| Manifolds.Exchange | Manifold.cs:70-71 | A takes −impulse at arm ra and B takes impulse at arm rb, each as Push and Turn |
| Manifolds.PushAdditive | RigidBody.cs:53-57 | two pushes of one body are one push of the summed impulse |
| Manifolds.TurnAdditive | RigidBody.cs:53-57 | two turns at one arm are one turn of the summed impulse |
| Manifolds.ExchangeAdditive | Manifold.cs:70-92 | two equal-and-opposite exchanges at the same arms are one exchange of the summed impulse |
| Manifolds.ExchangeConservesMomentum | Manifold.cs:70-71 | an equal-and-opposite exchange conserves the pair's linear momentum |
| Manifolds.StageIsExchange | Manifold.cs:68-92 | the normal and friction impulses at a point are one exchange of their sum |
| Manifolds.TotalImpulse | Manifold.cs:56-92 | the whole change at one contact point is one equal-and-opposite exchange |
| Manifolds.ImpulsesStopWhenSeparating | Manifold.cs:56-59 | at the first point where the bodies separate the solver stops and changes nothing |
| Manifolds.ImpulsesConserveMomentum | Manifold.cs:49-93 | between bodies of finite non-zero mass the whole impulse loop conserves linear momentum |
| Manifolds.Impulses | Manifold.cs:49-93 | the impulse loop over the contact points, up to the first point where it stops; ImpulsesStopWhenSeparating and ImpulsesConserveMomentum state what it does |
| Manifolds.PointImpulse | Manifold.cs:51-92 | one point of the loop: no change and stop when the bodies separate, else the normal impulse, then stop when jt is zero, else the friction impulse; TotalImpulse states it is one exchange |
| Manifolds.NormalImpulseAt | Manifold.cs:61-68 | the normal impulse j·normal at the point; NormalImpulse states j >= 0 for approaching bodies |
| Manifolds.TangentImpulse | Manifold.cs:73-84 | the tangent impulse jt at the point, shared out over the points; FrictionScalar and FrictionBounds state how it is capped |
| Manifolds.Manifold.constructor | Manifold.cs:8-12 | the manifold has bodies A and B, no contact points, and zero normal, penetration and coefficients |
| Manifolds.Manifold.Solve | Manifold.cs:14-18 | the points are reset to null, then the routine for the two shape kinds computes the contact from the bodies as they were |
| Manifolds.Manifold.Init | Manifold.cs:19-27 | restitution is the mean of the materials', us and uk the root of the sum of squares |
| Manifolds.Manifold.PositionalCorrection | Manifold.cs:28-38 | A moves by -correction·invMassA and B by +correction·invMassB; nothing moves when the penetration is at most the slop |
| Manifolds.Manifold.ApplyImpulse | Manifold.cs:39-94 | below the im_sum guard both linear velocities become zero and the spins are kept; otherwise the velocities are those of Impulses over the contact points |
| Manifolds.Manifold.ApplyAt | Manifold.cs:49-93 | one pass of the loop: the velocities and the stop flag are PointImpulse at p |
| Manifolds.Manifold.Trade | Manifold.cs:68-71 | A receives -impulse at ra and B receives +impulse at rb |
| BroadPhase.NewCollider | BroadPhase.cs:59-65 | the collider's box, around the body's position, contains the circle or every transformed polygon vertex |
| BroadPhase.RowUpTo | BroadPhase.cs:25-34 | every pair of row i is (i, j) with i < j below the bound |
| BroadPhase.AllUpTo | BroadPhase.cs:22-35 | every pair of the first i rows has first index below i and a greater second index |
| BroadPhase.Kept | BroadPhase.cs:18-37 | every kept index pair (i, j) has i < j < count |
| BroadPhase.PairsStep | BroadPhase.cs:22-35 | the first i + 1 rows give the pairs of the first i rows followed by those of row i |
| BroadPhase.RowMembers | BroadPhase.cs:25-34 | row i holds exactly the pairs (i, j) that pass both tests |
| BroadPhase.RowSorted | BroadPhase.cs:25-34 | a row lists its pairs by increasing second index |
| BroadPhase.AllSound | BroadPhase.cs:22-35 | every pair of the first i rows passes both tests |
| BroadPhase.AllComplete | BroadPhase.cs:22-35 | every pair passing both tests with first index below i is in the first i rows |
| BroadPhase.AllMembers | BroadPhase.cs:22-35 | the first i rows hold exactly the passing pairs with first index below i |
| BroadPhase.AllSorted | BroadPhase.cs:22-35 | the first i rows are in strictly increasing lexicographic order |
| BroadPhase.AllSortedStep | BroadPhase.cs:22-35 | one outer pass more keeps the pairs in strictly increasing lexicographic order |
| BroadPhase.KeptSound | BroadPhase.cs:29-33 | every kept pair has i < j, an inverse-mass sum not within Epsilon of zero, and intersecting boxes |
| BroadPhase.KeptComplete | BroadPhase.cs:29-33 | every pair i < j with a non-negligible inverse-mass sum and intersecting boxes is kept |
| BroadPhase.ImmovableNeverPaired | BroadPhase.cs:29-30 | two bodies whose inverse masses sum to within Epsilon of zero are never paired, in either order |
| BroadPhase.KeptOrdered | BroadPhase.cs:22-25 | the pairs are in strictly increasing lexicographic order: no repeats, no pair in both orders, no self-pair |
| BroadPhase.BroadPhase.constructor | BroadPhase.cs:10-13 | a new broad phase has no colliders |
| BroadPhase.BroadPhase.AddBody | BroadPhase.cs:14-17 | exactly one collider, for the body, is appended |
| BroadPhase.BroadPhase.GetPairs | BroadPhase.cs:18-37 | the result is the body pairs of Kept, and the colliders are not changed |
| BroadPhase.BroadPhase.PairsWith | BroadPhase.cs:25-34 | the inner loop returns the body pairs of row i |
| Scenes.RemoveFirst | Scene.cs:28-31 | List.Remove: no change when x is absent; otherwise one element fewer and one occurrence of x fewer, nothing else |
| Scenes.FirstIndex | Scene.cs:30 | the index of the first occurrence of x |
| Scenes.RemoveFirstAt | Scene.cs:30 | List.Remove cuts out exactly the first occurrence |
| Scenes.RemoveFirstKeepsDistinct | Scene.cs:28-31 | on a list without repetitions, removing x keeps every other body, drops x, and keeps the list free of repetitions |
| Scenes.ImmovableKeepsVelocity | Scene.cs:74-80 | a body whose inverse mass is within Epsilon of zero keeps its velocity and spin |
| Scenes.ForceIntegration | Scene.cs:74-80 | the new velocity and spin of a body; ImmovableKeepsVelocity, ForceIntegrationMomentum, FreeFall and ForceIntegrationSplits state what they are |
| Scenes.VelocityIntegration | Scene.cs:81-85 | the new position and orientation of a body; VelocityIntegrationSplits and VelocityIntegrationReverses state what they are |
| Scenes.ForceIntegrationMomentum | Scene.cs:74-80 | for a movable body, m·Δv == (F + g·scale·m)·dt and I·Δω == torque·dt |
| Scenes.FreeFall | Scene.cs:74-80 | with no force and no torque every movable body gains g·scale·dt, whatever its mass |
| Scenes.ForceIntegrationSplits | Scene.cs:74-80 | integrating over dt1 and then dt2 under the same forces is integrating over dt1 + dt2 |
| Scenes.VelocityIntegrationSplits | Scene.cs:81-85 | moving by dt1 and then dt2 at the same velocities is moving by dt1 + dt2 |
| Scenes.VelocityIntegrationReverses | Scene.cs:81-85 | moving by dt and then by -dt returns the body to where it was |
| Scenes.Passes | Scene.cs:58-60 | IterationTimes passes over the contacts make n·\|contacts\| solver calls |
| Scenes.PassesAt | Scene.cs:58-60 | call p·\|contacts\| + k of the solver is on contact k |
| Scenes.CollidersOf | Scene.cs:41-42 | one collider per body |
| Scenes.CollidersOfBodies | Scene.cs:41-42 | collider k is NewCollider of body k, so it belongs to body k |
| Scenes.WithPoints | Scene.cs:48-49 | the kept manifolds are exactly those among the made ones that have contact points |
| Scenes.SolvedManifold | Scene.cs:46-47 | a new manifold of the pair's two bodies, whose contact is what the dispatch table (Collides) gives a fresh manifold of those bodies as they were |
| Scenes.NarrowedMore | Scene.cs:44-50 | the narrow phase's record of its first pairs grows by one solved manifold of the next pair |
| Scenes.Scene.constructor | Scene.cs:14-21 | the scene has the given dt, iteration count and gravity, and no bodies or contacts |
| Scenes.Scene.AddBody | Scene.cs:22-27 | exactly one new body, with the shape and material, is appended and returned; it is at rest at the origin at angle 0 with gravity scale 1 and no force, has the shape's mass and inertia, and a polygon's vertices are centred on its centroid with its orientation cache left as it was |
| Scenes.Scene.RemoveBody | Scene.cs:28-31 | Objects loses the first occurrence of the body; a scene without repeated bodies no longer holds it |
| Scenes.Scene.IntegrationForce | Scene.cs:74-80 | the body's velocity and spin become ForceIntegration of the old ones |
| Scenes.Scene.IntegrationVelocity | Scene.cs:81-85 | the body's position and orientation become VelocityIntegration of the old ones |
| Scenes.Scene.OrientAt | Scene.cs:38-39 | body i's cache is Refreshed by SetOrientation at its orientation: left as it was when already at that angle, otherwise the vertices and normals rotated by it and their bounds; every other body's cache is unchanged, and one already Refreshed stays so |
| Scenes.Scene.OrientPolygon | Scene.cs:38-39 | the polygon's cache is Refreshed at the body's orientation (kept at the cached angle, recomputed otherwise), and no other body shares the polygon |
| Scenes.Scene.Unshared | Scene.cs:38-39 | in a valid scene no other body has the polygon of a body |
| Scenes.Scene.Orient | Scene.cs:38-39 | every body's cache is Refreshed from its old contents at its orientation; the colliders then built are OrientedColliders of the bodies as they were: each shape's box is the kept cached box, or the bounds of its vertices rotated to the body's orientation, moved to the body's position |
| Scenes.Scene.Broad | Scene.cs:36-42 | a new broad phase holds one collider per body, in order |
| Scenes.Scene.BroadPairs | Scene.cs:36-44 | the pairs are GetPairs over the bodies, and each joins two different bodies of the scene that are not both immovable |
| Scenes.Scene.Consider | Scene.cs:44-50 | pair k: a new manifold, solved from its bodies' poses, joins the record, and is added to the contacts exactly when it has points |
| Scenes.Scene.Narrow | Scene.cs:44-50 | one new manifold per pair, in order, of that pair's bodies, each holding what Collides gives for the bodies as they were; the contacts are those with points, ready for the solver |
| Scenes.Scene.NarrowAll | Scene.cs:44-50 | the loop: one solved manifold per pair in order, and the contacts are those with points |
| Scenes.Scene.MadeReady | Scene.cs:44-50 | manifolds made for pairs of two different bodies of the scene, not both immovable, are ready for the solver |
| Scenes.PosesOf | Scene.cs:44-50 | the poses of both bodies of every pair, in pair order |
| Scenes.Scene.Collide | Scene.cs:36-50 | the broad and narrow phases: GetPairs's pairs, one manifold each, and the contacts those with points |
| Scenes.Scene.FindContacts | Scene.cs:34-50 | Contacts is replaced by the manifolds of the broad-phase pairs that have points, in pair order |
| Scenes.Scene.Install | Scene.cs:34 | Contacts becomes exactly the list the narrow phase built |
| Scenes.Scene.IntegrateForces | Scene.cs:52-53 | every body's velocity and spin become ForceIntegration of the old ones |
| Scenes.Scene.InitContacts | Scene.cs:55-56 | every contact is initialised from its two materials |
| Scenes.Scene.SolveContacts | Scene.cs:58-60 | the solver is called IterationTimes times over the contacts, in list order |
| Scenes.Scene.SolvePass | Scene.cs:59-60 | one pass of the solver keeps the inverses non-negative and the contacts ready |
| Scenes.Scene.CorrectPositions | Scene.cs:65-66 | every body that no contact deeper than the slop joins keeps its position |
| Scenes.Scene.IntegrateVelocities | Scene.cs:62-63 | every body's position and orientation become VelocityIntegration of the old ones |
| Scenes.Scene.ClearForces | Scene.cs:68-69 | every body's force and torque are zero |
| Scenes.Scene.Prepare | Scene.cs:52-56 | each body's velocity and spin become ForceIntegration of the old ones with its inverse mass and inertia, force, torque, the gravity and the time step; then every contact is initialised from its materials |
| Scenes.Scene.Impulses | Scene.cs:52-60 | contacts initialised, then IterationTimes passes of the solver in list order |
| Scenes.Scene.Settle | Scene.cs:62-69 | a body that no contact deeper than the slop joins ends at its old position plus velocity·dt; every force and torque is zero |
| Scenes.Scene.Dynamics | Scene.cs:52-69 | contacts initialised and solved IterationTimes times in list order, and all forces cleared |
| Scenes.Scene.Finish | Scene.cs:62-69 | the last phases keep the scene valid and the contacts initialised, and clear all forces |
| Scenes.Scene.Advance | Scene.cs:52-69 | as Dynamics, and the contacts are still the manifolds with points |
| Scenes.Scene.Move | Scene.cs:52-69 | as Dynamics, and every body keeps its shape, so each recorded pose differs from the new one at most in position |
| Scenes.Scene.Resolve | Scene.cs:34-69 | contacts are the new manifolds with points, one per broad-phase pair in order; all are initialised and solved IterationTimes times; all forces are cleared |
| Scenes.Scene.Step | Scene.cs:32-70 | the same bodies; the colliders are OrientedColliders of the bodies before the step (each shape's box as SetOrientation leaves it, moved to the body's old position); the pairs are those GetPairs keeps over them; one new manifold per pair in order, each holding what the dispatch table gives for the bodies as they were; the contacts are those that found points, each initialised before IterationTimes passes in list order; every force and torque is zero |
| Scenes.Scene.Simulate | Scene.cs:34-69 | Step after the caches are refreshed: the colliders are CollidersOf the bodies on entry, one per body in order; then the same bodies, the broad-phase pairs, their solved manifolds, the contacts among them with points, solved IterationTimes times, and every force cleared |
| Scenes.PairsJoinBodies | Scene.cs:41-44 | every broad-phase pair over the scene joins two different bodies of the scene that are not both immovable |

## Left out

- Floating point: scalars are `real`. Rounding, NaN and infinities are not modelled. `Epsilon` is the decimal 1e-8, not its `float` rounding. `MathHelper.Pi` is 3.1415927.
- `Math.Sqrt`, `Vector2.Normalize` and the quaternion rotation (`Quaternion.FromAxisAngle` with `Vector2.Transform`) are library code. They are function parameters:
  - `sqrt` satisfies `IsSqrt`: it is non-negative, and its square is its argument on non-negative inputs;
  - `normalize` is `Normalize` for that `sqrt` where a lemma needs it (`IsNormalizer`);
  - `rotate` is arbitrary.
- The zero vector normalises to itself. OpenTK would give NaN components.
- `Polygon.U`, the quaternion the source stores, is not kept. Only its effect through `rotate` is modelled.
- Transform.cs is not part of this model. Each body holds `Position` and `Orientation` directly, and a new body starts at the origin with orientation 0.
- Convexity of the hull, and the geometric completeness of the separating-axis test plus clipping, are not proved. What each routine leaves is stated exactly (`CirclePolygon`, `PolygonPolygon` and their case lemmas), and so is when it finds contact points.
- The correctness of the area, centroid and inertia formulas as integrals is not proved. Only the loops that compute them, and the mass guards, are.
- Centroid: for a polygon of zero area the source divides by zero. The model takes the origin as the centroid.
- Bodies.Polygon.FromVertices: its requires asks that the gift wrap closes (`HullCloses`). The source throws an IndexOutOfRangeException otherwise, or on an empty array. `Polygon.Set` models that path with its `ok` result.
- Bodies.Polygon.Box: same requires as FromVertices.
- The gift wrap's inner loop is reasoned about through a ghost successor table `steps` that must hold NextHull of every vertex. This keeps the `while (true)` walk apart from the geometry.
- Bodies.RigidBody.SetDynamic: calls `Polygon.CalculateMassAsWritten`, as the source does, so a polygon's cache is left as it was before the centroid shift (see Findings). Its contract states the mass and inertia, and that the polygon's orientation cache is left as it was before the shift.
- Manifolds.Manifold.ApplyImpulse: the requires and what they stand for:
  - `A != B`, which the broad phase guarantees;
  - non-negative inverse masses and inertias, which keep every denominator positive;
  - contact points whenever the guard passes, since the source dereferences `ContactPoints`.
- Manifolds.Manifold.ApplyImpulse: the friction impulse's `tangent` is tested for zero through `Length` with the given `sqrt` (Manifold.cs:74), and only then normalised with the given `normalize` (Manifold.cs:77). Float rounding in either is not modelled.
- Bodies.Polygon.Widen: the rotation loop's box starts from the sentinels `float.MaxValue` and `float.MinValue` (Shape.cs:202-205). The model lets the first vertex win instead. Over the reals the two differ only for a coordinate beyond the range of a float.
- Bodies.Polygon.GetSupport: the running best starts at vertex 0's dot product, not at the sentinel `float.MinValue` (Shape.cs:144). Over the reals the two differ only when every dot product is at most `float.MinValue`: the source then returns vertex 0, the model the first greatest. No finite float lies below `float.MinValue`.
- Manifolds.Manifold.PositionalCorrection: requires the inverse-mass sum to be non-zero. The source divides by it, giving infinity or NaN otherwise.
- Scenes.Scene.Step: requires `Valid` and `NonNegative`:
  - every body at most once in `Objects`, and each shape owned by its body;
  - no negative inverse mass or inertia.
  `AddBody` keeps `Valid`. The mass computations give `NonNegative` for non-negative densities and counter-clockwise hulls, which the model does not prove.
- Scenes.Scene.AddBody: requires a shape not already used by a body of the scene, and a polygon whose arrays are well formed (`Valid`), as `Set` leaves them.
- Scenes.Scene.SolveContacts: states the order of the solver calls (`IterationTimes` passes in list order, kept as ghost bookkeeping), not the velocities after all the passes. Contacts that share a body make those a composition over aliased bodies.
- Scenes.Scene.Settle: states the final position only of bodies that no contact deeper than the slop joins, for the same reason. Each `PositionalCorrection` on its own is specified.
- Scenes.Scene.CorrectPositions: states only that bodies no deep contact joins keep their positions, for the same reason.
- Scenes.Scene.SolvePass: states only the invariants kept by one pass.
- The `Material` preset table of Material.cs is plain data. `Material` is a datatype with four fields.
- The delegate table indexed by the shape-type enum (Collision.cs:10-13, Manifold.cs:17) is a `match` on the pair of shape kinds.
- Extrema: the `float.MinValue` and `float.MaxValue` sentinels are kept as constants. The lemmas state when a list element beats them.

## Findings

| source | as written | input that shows it | evidently intended | confidence | as-written member | corrected member |
|---|---|---|---|---|---|---|
| Shape.cs:185-188 | `Polygon.CalculateMass` moves `Vertices` by the centroid, but leaves `mTransVertices`, `mTransNormals`, `mTransAABB` and `mLastOrientation` alone. `Set` already cached angle 0, so the `SetOrientation(0)` of `Scene.Step` (Scene.cs:38-39) returns early at Shape.cs:198-199. The narrow phase, the support point and the box then use the unshifted vertices. | `new Polygon(0, 0, 2, 2)` added to a scene: the centroid is (1, 1), and the cached vertex (0, 0) should be (-1, -1) | the cache is refreshed for the shifted vertices at the cached angle | not executed | Bodies.Polygon.CalculateMassAsWritten, with Bodies.StaleCacheAfterShift | Bodies.Polygon.CalculateMass |

Building a body (`RigidBody.SetDynamic`, and through it the `RigidBody` constructor and `Scene.AddBody`) runs `CalculateMassAsWritten`, as the source does, so the scene model keeps this behaviour. `CalculateMass` is the corrected definition, with the valid cache proved about it.
