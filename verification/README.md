# SolverHTE mesh generator and node numbering, modelled in Dafny

SolverHTE solves the steady heat equation on a polygonal area by finite elements.
This project models the part that builds the mesh and numbers its nodes:

- **Initial division** (`DivisionArea.cs`). The border of the area is cut into points
  about one unit apart. Ears are then clipped one at a time: each round takes the
  triangle at the point of least corrected angle, flips bad edges, and drops the
  ear's middle point once that point is no longer needed.
- **Refinement** (`Triangulation.cs` with `Utility/TriangulationUtility.cs` and
  `Utility/GeometryUtility.cs`). This is a Delaunay refinement loop. It picks the
  worst triangle, meaning the one with the largest perimeter among those that are
  too large or too badly shaped. If some triangle's side is encroached, it inserts
  that side's midpoint. Otherwise it inserts the circumcenter unless
  `PointIsBeyondArea` reports it beyond the area, and then splits the triangle at the
  foot of its height instead. As written, that test reports a point on no side beyond
  the area as soon as one triangle misses it, so in a mesh of two or more triangles
  an interior circumcenter is inserted only when it lies on a side (see Findings).
  After an insertion, the side opposite the new point in each new triangle is
  flipped when the neighbour's far vertex lies in the triangle's circumcircle
  (distance at most the radius), and the flip recurses on the two triangles it
  creates. Nothing is proved about the mesh being Delaunay afterwards.
- **Node numbering** (`NumberNodes.cs`). The distinct vertices are numbered 1, 2, …
  column by column: least x first, then ascending y. Every triangle then records the
  numbers of its three vertices.
- **Border nodes** (`FoundNodes.cs`). Each grid node is matched to the first border
  side it lies on. The node is recorded when that side carries a set temperature.

How the source is mapped:

- Decimals are modelled as `real` and points as the datatype `PointM`.
- The C# lists become sequences, and every mutating method becomes a pure function
  from the old list to the new one.
- Exceptions become `Result` values (`Results.Result`): division by zero, index out
  of range, and a loop that cannot end.
- Three computations run in `double` precision through `Math.Sqrt` and `Math.Acos`:
  the distance between points, the angle between vectors and the foot of a triangle's
  height. These are parameters (`Geometry.Numerics`). Properties that need real
  geometry assume only that `dist` orders pairs of points as the Euclidean distance
  does (`Geometry.Euclidean`).
- Two source loops have no termination argument: the `goto step_two` loop of
  `TriangulationArea` and the recursion of `FlipBadEdges`. Both take a `fuel` bound
  and return `FuelExhausted` when the bound runs out.

Modules: `Results`, `Points`, `Structs`, `RealFacts` (small arithmetic lemmas),
`Geometry`, `Topology`, `Refinement`, `Division`, `NumberNodes`, `FoundNodes`.

## Model

| member | source | states |
|---|---|---|
| Points.IsEmpty | src/Triangulation/SolverHTE.Triangulation/Structs/PointM.cs:32 | a point is empty exactly when it is the default point (0, 0) |
| Points.NotEq | src/Triangulation/SolverHTE.Triangulation/Structs/PointM.cs:57-64 | `!=` holds exactly for points that differ in a coordinate, and it is the negation of `==` |
| Points.EqualsPoint | src/Triangulation/SolverHTE.Triangulation/Structs/PointM.cs:66 | `Equals(PointM)` agrees with `==`, which is equality of both coordinates |
| Points.EqualsObject | src/Triangulation/SolverHTE.Triangulation/Structs/PointM.cs:65 | `Equals(object)` is false for any object that is not a point, and true exactly for the boxed same point |
| Points.HashConsistent | src/Triangulation/SolverHTE.Triangulation/Structs/PointM.cs:67 | points equal under `==` hash equally, whatever the runtime hash functions are |
| Structs.SideNumbering | src/Triangulation/SolverHTE.Triangulation/Utility/TriangulationUtility.cs:299-302 | side k joins vertex k − 1 to vertex k mod 3, and the vertex opposite it is (k + 1) mod 3 |
| Structs.RemoveAt | src/Triangulation/SolverHTE.Triangulation/Triangulation.cs:157-163 | `List.RemoveAt(i)` shortens the list by one, keeps the entries before i and shifts those after it down by one |
| Results.Div | src/Triangulation/SolverHTE.Triangulation/Utility/GeometryUtility.cs:67-75 | decimal division fails exactly for a zero divisor, and otherwise returns the number that times the divisor gives the dividend |
| Geometry.GetVectors | src/Triangulation/SolverHTE.Triangulation/Utility/GeometryUtility.cs:22-33 | the two vectors lead from the middle point to the first point and to the third point |
| Geometry.GetVectorsSide | src/Triangulation/SolverHTE.Triangulation/Utility/GeometryUtility.cs:41-56 | the two vectors lead from vertex sideNums − 1 to the next two vertices in cyclic order |
| Geometry.GetAngelsTriangle | src/Triangulation/SolverHTE.Triangulation/Utility/GeometryUtility.cs:85-96 | entry i is the interior angle at vertex i |
| Geometry.VertexMaxAngle | src/Triangulation/SolverHTE.Triangulation/Utility/GeometryUtility.cs:103-109 | the returned point is a vertex whose angle is largest |
| Geometry.GetNumSideTriangle | src/Triangulation/SolverHTE.Triangulation/Utility/GeometryUtility.cs:116-122 | the side returned is in 1..3 and lies opposite a largest angle |
| Geometry.NumSideOppositeMaxVertex | src/Triangulation/SolverHTE.Triangulation/Utility/GeometryUtility.cs:103-122 | the two selections break ties the same way: the side chosen lies opposite the vertex chosen |
| Geometry.GetSideLenght | src/Triangulation/SolverHTE.Triangulation/Utility/GeometryUtility.cs:266-271 | side k is measured between vertex k − 1 and vertex k mod 3 |
| Geometry.ShortestEdgeTriangle | src/Triangulation/SolverHTE.Triangulation/Utility/GeometryUtility.cs:157-170 | the result is at most every side length and equal to one of them |
| Geometry.ShortestEdgeTriangles | src/Triangulation/SolverHTE.Triangulation/Utility/GeometryUtility.cs:177-193 | the result is the least side of all triangles, capped at 1000000: a lower bound of every triangle's shortest side, attained by one of them or equal to the cap |
| Geometry.GetSumSidesTriangle | src/Triangulation/SolverHTE.Triangulation/Utility/GeometryUtility.cs:200-209 | the perimeter is at least three times the shortest side |
| Geometry.GetProductSidesTriangle | src/Triangulation/SolverHTE.Triangulation/Utility/GeometryUtility.cs:216-225 | the product of the sides is zero exactly when some side has length zero |
| Geometry.SidesRotationInvariant | src/Triangulation/SolverHTE.Triangulation/Utility/GeometryUtility.cs:200-225 | the perimeter and the side product do not depend on which vertex is listed first |
| Geometry.GetSquareTriangle | src/Triangulation/SolverHTE.Triangulation/Utility/GeometryUtility.cs:252-258 | the area is non-negative and half the absolute cross product of two edges |
| Geometry.SquareZeroIffCollinear | src/Triangulation/SolverHTE.Triangulation/Utility/GeometryUtility.cs:252-258 | the area is zero exactly when the three vertices lie on one line |
| Geometry.SquareRotationInvariant | src/Triangulation/SolverHTE.Triangulation/Utility/GeometryUtility.cs:252-258 | the area does not depend on which vertex comes first or on orientation |
| Geometry.GetCenterPointCircleTriangle | src/Triangulation/SolverHTE.Triangulation/Utility/GeometryUtility.cs:63-78 | the circumcenter fails (decimal division by zero) exactly for a triangle of zero area, and otherwise is equally far from the three vertices |
| Geometry.CircumcenterEquidistant | src/Triangulation/SolverHTE.Triangulation/Utility/GeometryUtility.cs:63-78 | the closed-form center is equally far from all three vertices |
| Geometry.GetCircumRadius | src/Triangulation/SolverHTE.Triangulation/Utility/GeometryUtility.cs:232-235 | the circumradius times four times the area is the product of the sides; it fails exactly for zero area |
| Geometry.GetCircumRadiusShortestEdgeRatio | src/Triangulation/SolverHTE.Triangulation/Utility/GeometryUtility.cs:242-245 | the ratio times the shortest edge is the circumradius; it fails exactly when the area or the shortest edge is zero |
| Geometry.PointIsDiametralCircle | src/Triangulation/SolverHTE.Triangulation/Utility/GeometryUtility.cs:280-294 | the test fails exactly for a triangle of zero area |
| Geometry.DiametralCircleIsDisk | src/Triangulation/SolverHTE.Triangulation/Utility/GeometryUtility.cs:280-294 | when `dist` orders pairs as the Euclidean distance does, the test holds exactly when the circumcenter lies in the closed disk whose diameter is the segment |
| Topology.ContainsEdgeTriangleNums | src/Triangulation/SolverHTE.Triangulation/Utility/TriangulationUtility.cs:59-69 | true exactly when some entry names the same triangle; the side number is not compared |
| Topology.PointOnSideTriangleShape | src/Triangulation/SolverHTE.Triangulation/Utility/TriangulationUtility.cs:19-51 | the side hits name, in ascending order and once each, exactly the triangles that do not have the point as a vertex and have a side holding it (within 0.00000001), each with the first such side |
| Topology.SideHitsComplete | src/Triangulation/SolverHTE.Triangulation/Utility/TriangulationUtility.cs:19-51 | every triangle with a side holding the point that does not have the point as a vertex is listed |
| Topology.EdgeTestIsCross | src/Triangulation/SolverHTE.Triangulation/Utility/TriangulationUtility.cs:81-88 | each edge determinant is the orientation of the point relative to the directed edge |
| Topology.PointOnTriangleIsInterior | src/Triangulation/SolverHTE.Triangulation/Utility/TriangulationUtility.cs:77-92 | for a triangle of non-zero area, `PointOnTriangle` holds exactly for the points strictly inside it |
| Topology.GetNumEdgeWithoutPoint | src/Triangulation/SolverHTE.Triangulation/Utility/TriangulationUtility.cs:101-112 | −1 exactly when the point is not a vertex; otherwise the side opposite the first vertex equal to it |
| Topology.GetNeighborEdgeTriangleNums | src/Triangulation/SolverHTE.Triangulation/Utility/TriangulationUtility.cs:121-155 | a side number outside 1..3 indexes outside the vertex array and fails |
| Topology.GetNeighborEdgeTriangleNumsSpec | src/Triangulation/SolverHTE.Triangulation/Utility/TriangulationUtility.cs:121-155 | the result is the last triangle that shares the side, with the first matching side of that triangle, or side 0 when none does |
| Topology.PointIsBeyondArea | src/Triangulation/SolverHTE.Triangulation/Utility/TriangulationUtility.cs:163-179 | as written: no side holds the point and SOME triangle does not contain it |
| Topology.PointIsOutsideArea | src/Triangulation/SolverHTE.Triangulation/Utility/TriangulationUtility.cs:163-179 | as intended: no side holds the point and NO triangle contains it |
| Topology.PointIsOutsideAreaMeansOutside | src/Triangulation/SolverHTE.Triangulation/Utility/TriangulationUtility.cs:163-179 | in a mesh without degenerate triangles, the corrected test holds exactly when the point is on no side and strictly inside no triangle |
| Topology.BeyondAreaWhenAnotherMisses | src/Triangulation/SolverHTE.Triangulation/Utility/TriangulationUtility.cs:163-179 | a point inside one triangle but outside another, on no side, is "beyond the area" as written but not outside it |
| Topology.UnitSquareSeparatesInnerPoint | src/Triangulation/SolverHTE.Triangulation/Utility/TriangulationUtility.cs:163-179 | a concrete two-triangle square and an inner point that meet the hypotheses above |
| Topology.PointIsRequired | src/Triangulation/SolverHTE.Triangulation/Utility/TriangulationUtility.cs:246-277 | an empty mesh always needs the point; otherwise the point is still needed unless both of its cyclic neighbours are vertices of the mesh; a bad index fails |
| Topology.PointInCircleNeighborTriangle | src/Triangulation/SolverHTE.Triangulation/Utility/TriangulationUtility.cs:188-203 | it fails exactly for a zero-area triangle or an index out of range; otherwise it holds when the neighbour's vertex opposite the shared side is within the circumradius of the circumcenter |
| Topology.EdgeTriangleOnBorder | src/Triangulation/SolverHTE.Triangulation/Utility/TriangulationUtility.cs:333-351 | −1 exactly when no border side holds both ends of the edge; otherwise the first side that does |
| Topology.ReplaceAsWrittenAbove | src/Triangulation/SolverHTE.Triangulation/Utility/TriangulationUtility.cs:316-317 | when the neighbour comes after the flipped triangle, the second removal takes the entry after the neighbour |
| Topology.StaleRemovalExample | src/Triangulation/SolverHTE.Triangulation/Utility/TriangulationUtility.cs:316-317 | flipping the first of two triangles against the second keeps the neighbour and drops a new triangle |
| Topology.ReplaceAsWrittenBelow | src/Triangulation/SolverHTE.Triangulation/Utility/TriangulationUtility.cs:316-317 | when the neighbour comes first, the written removals replace exactly the pair |
| Topology.ReplacePair | src/Triangulation/SolverHTE.Triangulation/Utility/TriangulationUtility.cs:308-317 | the corrected removal takes out exactly the flipped pair and appends the two new triangles |
| Topology.NeighbourIsOther | src/Triangulation/SolverHTE.Triangulation/Utility/TriangulationUtility.cs:292-293 | the neighbour across the side opposite the new point of a triangle of non-zero area is another triangle, and the new point is not one of its vertices |
| Topology.PlanFlip | src/Triangulation/SolverHTE.Triangulation/Utility/TriangulationUtility.cs:292-312 | a swap names another triangle without the new point as the neighbour, and two new triangles having the new point as a vertex |
| Topology.PlanFlipDecides | src/Triangulation/SolverHTE.Triangulation/Utility/TriangulationUtility.cs:292-312 | the list is kept exactly when the side opposite the new point has no neighbour or the circle test fails; otherwise the swap takes that neighbour, which shares the side, and yields (p, a, f) and (f, b, p) for the side a–b and the neighbour's far vertex f |
| Topology.FlipStepReplaces | src/Triangulation/SolverHTE.Triangulation/Utility/TriangulationUtility.cs:292-317 | a flip as written ends the list with a new triangle at the point; with the neighbour before the triangle it replaces exactly the pair, with the neighbour after it the neighbour stays and the entry after it goes |
| Topology.FlipStepAsIntendedWhenTail | src/Triangulation/SolverHTE.Triangulation/Utility/TriangulationUtility.cs:316-317 | when every entry after the flipped triangle has the new point, the neighbour comes before it and the written removal is the intended one |
| Topology.FlipBadEdgesAsIntended | src/Triangulation/SolverHTE.Triangulation/Utility/TriangulationUtility.cs:286-323 | started at a triangle after which every entry has the new point, the flips as written run exactly as the flips with the intended removal |
| Topology.FlipTrianglesKeepSignedArea | src/Triangulation/SolverHTE.Triangulation/Utility/TriangulationUtility.cs:299-314 | the two new triangles of a flip cover the signed area of the pair they replace |
| Topology.PlanFlipKeepsSignedArea | src/Triangulation/SolverHTE.Triangulation/Utility/TriangulationUtility.cs:295-314 | when the neighbour runs the shared side in the opposite direction, the two triangles a swap brings in cover the signed area of the triangle and the neighbour they replace |
| Topology.FlipBadEdgesNewTrianglesHavePoint | src/Triangulation/SolverHTE.Triangulation/Utility/TriangulationUtility.cs:286-323 | every triangle after the flips was there before or has the new point as a vertex |
| Topology.FlipBadEdgesKeepsPoint | src/Triangulation/SolverHTE.Triangulation/Utility/TriangulationUtility.cs:286-323 | a mesh in which the point is a vertex keeps it as a vertex through the flips |
| Topology.FlipRecursionFuelMonotone | src/Triangulation/SolverHTE.Triangulation/Utility/TriangulationUtility.cs:319-320 | more fuel does not change a result already reached: the bound only cuts off runs |
| Topology.FlipBadEdges | src/Triangulation/SolverHTE.Triangulation/Utility/TriangulationUtility.cs:286-323 | the flips keep the number of triangles |
| Topology.FlipBadEdgesIntended | src/Triangulation/SolverHTE.Triangulation/Utility/TriangulationUtility.cs:286-323 | the flips with the intended removal keep the number of triangles |
| Refinement.SplitTriangle | src/Triangulation/SolverHTE.Triangulation/Triangulation.cs:248-296 | a side number outside 1..3 leaves the mesh unchanged; otherwise the two halves of the cut triangle are appended |
| Refinement.SplitHalvesArea | src/Triangulation/SolverHTE.Triangulation/Triangulation.cs:248-296 | cutting side k at s of the way along splits the signed area s : 1 − s between the halves |
| Refinement.SplitInnerPointTriangle | src/Triangulation/SolverHTE.Triangulation/Triangulation.cs:202-226 | the mesh is kept and followed by three triangles having the point as a vertex |
| Refinement.SplitInnerPointTriangleArea | src/Triangulation/SolverHTE.Triangulation/Triangulation.cs:202-226 | the three parts cover the signed area of the triangle |
| Refinement.SplitHits | src/Triangulation/SolverHTE.Triangulation/Triangulation.cs:147-151 | each side hit appends two triangles having the point and keeps the rest |
| Refinement.AddPointLength | src/Triangulation/SolverHTE.Triangulation/Triangulation.cs:141-195 | with two or more side hits the mesh grows by two per hit less the two removed; one hit grows it by one; a point inside a triangle grows it by two; a point in no triangle leaves it unchanged |
| Refinement.InsertPointRemovesOriginals | src/Triangulation/SolverHTE.Triangulation/Triangulation.cs:143-186 | the removals take out exactly the split originals: for two or more side hits the first two hits are in increasing order and the list loses exactly their two triangles (the higher index goes first, so the lower one is still in place); one hit loses its triangle; a point inside a triangle loses that triangle; a point in no triangle changes nothing |
| Refinement.AddPointKeepsOthers | src/Triangulation/SolverHTE.Triangulation/Triangulation.cs:141-195 | every triangle left was there before or has the point as a vertex |
| Refinement.AddPointInserts | src/Triangulation/SolverHTE.Triangulation/Triangulation.cs:141-195 | a point on a side or inside a triangle becomes a vertex of the mesh |
| Refinement.InsertPointTail | src/Triangulation/SolverHTE.Triangulation/Triangulation.cs:143-190 | every triangle the flips of `AddPoint` start from, and every entry after it, has the new point as a vertex |
| Refinement.AddPointAsIntended | src/Triangulation/SolverHTE.Triangulation/Triangulation.cs:141-195 | the flips of `AddPoint` never meet the stale removal: they run exactly as with the intended removal |
| Refinement.SplitHeightTriangle | src/Triangulation/SolverHTE.Triangulation/Triangulation.cs:232-240 | the triangle is replaced by two triangles, both having the foot of the height and the vertex of the largest angle, and the mesh grows by one |
| Refinement.FindIndexWorstTriangle | src/Triangulation/SolverHTE.Triangulation/Triangulation.cs:88-135 | fails exactly when some triangle has zero area or a zero shortest side; otherwise −1 when no triangle is a candidate, else the first candidate of largest perimeter |
| Refinement.EncroachFromSpec | src/Triangulation/SolverHTE.Triangulation/Triangulation.cs:47-67 | the scan finds the first encroached side of another triangle in scan order, with its midpoint, or none when no side is encroached |
| Refinement.EncroachFromDegenerate | src/Triangulation/SolverHTE.Triangulation/Triangulation.cs:47-67 | for a worst triangle of zero area the scan fails at the first side it tests |
| Refinement.RefineStepSplitsWhenAnotherMisses | src/Triangulation/SolverHTE.Triangulation/Triangulation.cs:69-77 | with no encroached side, a circumcenter on no side that some triangle misses is not inserted: the round splits the worst triangle at its height |
| Refinement.RefineFrom | src/Triangulation/SolverHTE.Triangulation/Triangulation.cs:41-80 | when the loop ends, no triangle is left to refine |
| Refinement.TriangulationArea | src/Triangulation/SolverHTE.Triangulation/Triangulation.cs:36-81 | every triangle of a finished refinement is measurable and not a candidate for the bounds derived from the initial shortest edge |
| Division.SplitSideShape | src/Triangulation/SolverHTE.Triangulation/DivisionArea.cs:125-137 | a side of length d > 0 yields ⌈d⌉ points, the start corner first, the k-th at k/d of the way along and all before the end corner; a side of length ≤ 0 yields none |
| Division.SplitEdgesAreaOnBorder | src/Triangulation/SolverHTE.Triangulation/DivisionArea.cs:120-140 | every border point lies on a border side in front of its end corner, and every corner that starts a side of positive length is a border point |
| Division.EarTripleCyclic | src/Triangulation/SolverHTE.Triangulation/DivisionArea.cs:47-64 | the three index cases with `Math.Abs` give j and the next two positions cyclically |
| Division.TripleDeterminantIsCross | src/Triangulation/SolverHTE.Triangulation/DivisionArea.cs:69-70 | the six-term determinant is the orientation of the three points |
| Division.EarAngleReflex | src/Triangulation/SolverHTE.Triangulation/DivisionArea.cs:66-73 | the corrected angle is the angle at the middle point, or 360 minus it for a clockwise or degenerate turn |
| Division.ScanEars | src/Triangulation/SolverHTE.Triangulation/DivisionArea.cs:45-80 | the inner loop fails (index out of range) exactly when one point is left |
| Division.SelectEar | src/Triangulation/SolverHTE.Triangulation/DivisionArea.cs:45-80 | with two or more points, the selection is the first position of least corrected angle, or the previous index when no angle is below 360 |
| Division.DivisionRoundSelects | src/Triangulation/SolverHTE.Triangulation/DivisionArea.cs:43-111 | a round that succeeds places the ear at the first position of least corrected angle |
| Division.PlaceEarSteps | src/Triangulation/SolverHTE.Triangulation/DivisionArea.cs:82-110 | placing the ear adds its triangle, flips from the vertex of its largest angle and then tests the ear's middle point |
| Division.PlaceEarTriangles | src/Triangulation/SolverHTE.Triangulation/DivisionArea.cs:101-105 | every triangle afterwards was there before, is the ear, or has the vertex of the ear's largest angle |
| Division.DropTipSpec | src/Triangulation/SolverHTE.Triangulation/DivisionArea.cs:107-110 | the ear's middle point is removed exactly when both of its neighbours are vertices of the mesh |
| Division.PlaceEarFlipsAsIntended | src/Triangulation/SolverHTE.Triangulation/DivisionArea.cs:104-105 | the flips after an ear is placed start at its triangle, the last entry, and end exactly as they would with the intended removal of the flipped pair |
| Division.PlaceEarDropsTip | src/Triangulation/SolverHTE.Triangulation/DivisionArea.cs:101-110 | after the flips, the middle point is removed exactly when both of its neighbours are in the mesh; otherwise the points stay as they were |
| Division.Rounds | src/Triangulation/SolverHTE.Triangulation/DivisionArea.cs:43-112 | each round adds exactly one triangle |
| Division.DivisionArea | src/Triangulation/SolverHTE.Triangulation/DivisionArea.cs:33-113 | a finished division has exactly (number of border points − 2) triangles, or none for fewer than two points |
| NumberNodes.VerticesAreVertices | src/Nodes/SolverHTE.Nodes/NumberNodes.cs:38-44 | the collected points are exactly the vertices of the triangles |
| NumberNodes.Dedup | src/Nodes/SolverHTE.Nodes/NumberNodes.cs:36-47 | the hash set read back as a list repeats no point and holds exactly the points put in |
| NumberNodes.MinXFromAttained | src/Nodes/SolverHTE.Nodes/NumberNodes.cs:89-100 | the minimum is 100000 or the x of some point, and at most every x |
| NumberNodes.RemoveIndexesWithX | src/Nodes/SolverHTE.Nodes/NumberNodes.cs:122-125 | removing the recorded indices highest first leaves exactly the points of other x, in order |
| NumberNodes.SortByY | src/Nodes/SolverHTE.Nodes/NumberNodes.cs:111 | the column is sorted by ascending y and is a permutation of the input |
| NumberNodes.NumberingNodesSpec | src/Nodes/SolverHTE.Nodes/NumberNodes.cs:87-128 | a round numbers exactly the points of least x in strictly ascending y from countNodes on, and keeps the others, which all have larger x; when every point lies right of x = 100000 it numbers nothing and keeps everything |
| NumberNodes.NumberFromTerminates | src/Nodes/SolverHTE.Nodes/NumberNodes.cs:49-52 | the `while` loop ends exactly when every point lies at or left of x = 100000 |
| NumberNodes.NumberFromSpec | src/Nodes/SolverHTE.Nodes/NumberNodes.cs:49-52 | a finished loop numbers every point exactly once, with consecutive numbers in strictly ascending (x, y) order |
| NumberNodes.NumberNodeIsVertex | src/Nodes/SolverHTE.Nodes/NumberNodes.cs:151-164 | −1 when no grid node sits at the vertex; otherwise the number of the first one that does |
| NumberNodes.MapTriangleSpec | src/Nodes/SolverHTE.Nodes/NumberNodes.cs:66-76 | each vertex gets the number of its grid node, or keeps its old number when there is none; the vertices do not move |
| NumberNodes.MapTriangleNumbered | src/Nodes/SolverHTE.Nodes/NumberNodes.cs:66-76 | with nodes numbered 1, 2, … and every vertex of the triangle having a node, each vertex records the number of a node sitting at that vertex |
| NumberNodes.MappingNodesVertexSpec | src/Nodes/SolverHTE.Nodes/NumberNodes.cs:60-78 | with nodes numbered 1, 2, … and every vertex having a node, each triangle records at each vertex the number of the node there |
| NumberNodes.DeterminingNodeNumbersTerminates | src/Nodes/SolverHTE.Nodes/NumberNodes.cs:33-55 | the numbering ends exactly when no vertex lies right of x = 100000 |
| NumberNodes.DeterminingNodeNumbersSpec | src/Nodes/SolverHTE.Nodes/NumberNodes.cs:33-55 | the distinct vertices get the numbers 1, 2, … in strictly ascending (x, y) order, and every triangle records at each vertex the number of the grid node there |
| FoundNodes.DeterminingBorderNumSpec | src/Nodes/SolverHTE.Nodes/FoundNodes.cs:88-102 | −1 exactly when the node lies on no border side; otherwise the first side it lies on |
| FoundNodes.BorderIsTempBorder | src/Nodes/SolverHTE.Nodes/FoundNodes.cs:70-81 | true exactly when some temperature border has the number |
| FoundNodes.FoundNodesNumberOrigins | src/Nodes/SolverHTE.Nodes/FoundNodes.cs:48-63 | the recorded pairs are those of the recorded grid nodes, in grid-node order, each (border number, node number − 1), and no recorded node is missed |
| FoundNodes.FoundNodesOnBorder | src/Nodes/SolverHTE.Nodes/FoundNodes.cs:48-63 | when no temperature border is numbered −1, every recorded node lies on the side recorded with it and on no side before it |
| FoundNodes.FoundNodesOffBorder | src/Nodes/SolverHTE.Nodes/FoundNodes.cs:48-63 | when some temperature border is numbered −1, every node on no border side is recorded with border −1 |

## Left out

- The flips after an insertion are local: nothing is proved about the mesh being Delaunay afterwards. With three or more side hits only the first two originals are removed and only the last four triangles are flipped, and the division flips a mesh that was not Delaunay before.
- `GetDistancePoints`, `GetAngleVectors` and `FindNewVertexHeightTriangle` compute in `double` through `Math.Sqrt` and `Math.Acos`. They are parameters of the model (`Geometry.Numerics`), so nothing is proved about their rounding.
- Geometry.Numerics: `dist`, `angle` and `heightFoot` are total functions, so the model has no error path for them. In the source, `(decimal)Math.Acos(...)` throws `OverflowException` when the arc cosine is NaN: a zero-length vector, or a cosine rounded past ±1 (GeometryUtility.cs:130-137). `FindNewVertexHeightTriangle` throws the same way when the square root is of a negative number, or divides by a zero distance (TriangulationUtility.cs:223-231). Overflow of `decimal` beyond about ±7.9·10^28 is not modelled either.
- Decimal rounding is not modelled: `real` is exact, while `decimal` keeps 28-29 significant digits. The constant `(decimal)Math.Sqrt(2)` is written out as 1.41421356237310.
- The `quantityPoints` of `SplitEdgesArea` is a `decimal`: the `decimal` distance of the side divided by the `int` step length 1, so its cast to `decimal` changes nothing. It is modelled as one exact `real`, against which the `int` counter is compared.
- Refinement.RefineFrom, Topology.FlipBadEdges: the `goto step_two` loop and the flip recursion have no termination argument in the source. The model bounds both by `fuel` and proves nothing about runs that exhaust it.
- `List.Sort(ComparisonPointsY)`: the model sorts by insertion instead of introspective sort. The y values within a column are distinct, so both orders agree. A comparer that never returns 0 is harmless here for the same reason.
- `HashSet<PointM>.ToList()` is assumed to return points in first-insertion order. No point is ever removed from the set, and .NET gives no guarantee of this order.
- `MappingNodesVertex` copies a `Triangle` struct, which shares its `NodesNumber` array with the list entry. This is modelled as a functional update of the list entry.
- `Triangles.Remove(triangle)` in `FlipBadEdges` compares structs by their array references. Every list entry owns fresh arrays, so this is modelled as removal by index.
- The finite-element assembly and solver are not part of this model, and neither is the code that reads the area and the temperature borders. These are `MatrixK.cs`, `VectorF.cs`, `SettingTemperature.cs`, `SolverEquation.cs`, `SolverHTE.cs` and `BorderData.cs`.
- `ToString` of `PointM` is not modelled. `GetHashCode` is modelled only through the two runtime hash functions it combines.

## Findings

| source | as written | input that shows it | evidently intended | confidence | as-written member | corrected member |
|---|---|---|---|---|---|---|
| src/Triangulation/SolverHTE.Triangulation/Utility/TriangulationUtility.cs:167-175 | the point is "beyond the area" when it is on no side and SOME triangle does not contain it | the unit square cut into two triangles, and a point inside the first one: it is reported beyond the area, so the refinement splits at the height instead of inserting the circumcenter | beyond the area when it is on no side and NO triangle contains it | not executed | Topology.BeyondAreaWhenAnotherMisses | Topology.PointIsOutsideAreaMeansOutside |
| src/Triangulation/SolverHTE.Triangulation/Utility/TriangulationUtility.cs:316-317 | after `Remove(triangle)` the neighbour is removed at its old index, which is stale when the neighbour came after the triangle | flipping triangle 0 of [a, b] against neighbour 1 leaves [b, t1]: the neighbour stays and a new triangle is lost | remove exactly the triangle and its neighbour, leaving [t0, t1] | not executed | Topology.StaleRemovalExample | Topology.ReplacePair |

The model follows the code as written. The refinement round
(`Refinement.RefineStep`) tests `Topology.PointIsBeyondArea`, so a circumcenter
inside the mesh that some other triangle misses leads to a split at the height
(`Refinement.RefineStepSplitsWhenAnotherMisses`). The flip (`Topology.FlipStep`)
removes the pair with the stale index (`Topology.ReplaceAsWritten`). The
corrected definitions are `Topology.PointIsOutsideArea`, `Topology.ReplacePair`
and `Topology.FlipBadEdgesIntended`. The stale removal never changes a result
where the program calls the flip: every entry after the flipped triangle has the
new point and the neighbour does not, so the neighbour comes first
(`Topology.FlipBadEdgesAsIntended`, `Refinement.AddPointAsIntended`,
`Division.PlaceEarFlipsAsIntended`).
