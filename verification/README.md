# Space-colonisation tree generator — a Dafny model

This project models the core of a Unity project that grows trees by space
colonisation and then skins them into a mesh:

- **Growth** (`Assets/CreateTree.cs`; the same step appears in
  `Assets/GenerateShape.cs`, reading public fields where CreateTree.cs calls getters). `Start` places the root below the crown of
  attraction points. Each call of `GenerateTree` then runs one iteration:
  - every point picks its closest in-range branch end;
  - branches collect the points that chose them;
  - for the first fourteen iterations, a tree that reaches no point grows
    straight up;
  - each branch with registered points and at most three children gets one
    child along the normalised sum of the pulls;
  - points within kill distance of a new branch are deleted.
- **Skinning** (`Assets/CreateGeometry.cs`). `SetRadii` thickens parents
  towards the root. `CalculateMesh` then emits one ring and cap fan per
  branch and stitches every branch's ring to its parent's ring.
- **The prototype skinner** (`Assets/CreateCylinder.cs`). It uses the same
  rings at a fixed radius of 0.2 and an eleven-pass stitching loop that
  joins consecutive rings.
- **The SCA_TreeGen variant**:
  - `DrawSphere` builds a UV-sphere crown;
  - its vertices become the attraction points;
  - a stub root branch is added;
  - a separate capped cylinder is built (`SCA_TreeGen/Assets/CreateCylinder.cs`).

The model has one module per concept:

- `Vectors`: `Vector3` over the reals. Distance tests are decided on squared
  distances.
- `Loops`: the shape every buffer-building `for` loop has.
- `Arena`: branches in a list, with parent and child links held as indices;
  the root is its own parent.
- `Assignment`: the closest-branch scan and registration.
- `Removal`: the kill pass.
- `Growth`: `Start` and the step.
- `IndexBuffers`: cap fans and quad bands.
- `Skinning`, `Prototype`, `Sphere` and `Cylinder`: the mesh builders.

Mesh vertices are modelled by role (which branch, which slice, which radius),
not by coordinates.

Where the code departs from the usual space-colonisation tree design, this
model follows the code:

- Every branch gets a cap fan over its ring, so the tubes are closed rather
  than open.
- The root's ring is stitched with base 0 and top `slices + 1`, which is the
  root's own centre followed by the next ring, rather than to a separate base
  ring at the root's start.
- The spawn gate `<= 3` admits a fourth child, and the model proves the
  bound of four.
- A tree that is only its root (no attraction points) gets no usable mesh:
  the root stitch is emitted regardless, so with one branch and at least one
  slice the index list names vertex 2 * slices + 1 while only slices + 2
  vertices exist (`Skinning.SingleBranchOutOfRange`).

## Model

| member | source | states |
|---|---|---|
| `Vectors.WithinIsDistanceTest` | Assets/CreateTree.cs:149-151 | the square-free in-range test agrees with `Vector3.Distance(a, b) < limit` for the true (non-negative) distance |
| `Vectors.CloserIsDistanceTest` | Assets/CreateTree.cs:155 | the square-free comparison agrees with comparing the two distances |
| `Arena.NewRoot` | Assets/CreateTree.cs:35-41 | the root constructor gives a one-branch well-formed arena (root its own parent) whose end is start + direction * length, childless |
| `Arena.AddChild` | Assets/CreateTree.cs:28-34 | the child constructor: the new branch starts at the parent's end, ends one length further along its direction, is childless, is appended to the parent's child list; every other branch is unchanged |
| `Arena.AddChildKeepsWellFormed` | Assets/CreateTree.cs:28-34 | adding a child keeps parents before children, every branch attached at its parent's end, and child lists exact and ordered |
| `Arena.LastIsChildless` | Assets/CreateTree.cs:172-176 | in a well-formed arena the last-created branch (`branches.Last()`, which the fallback grows from) has no children |
| `Arena.SameShapeKeepsWellFormed` | Assets/CreateTree.cs:232-235 | emptying the per-iteration scratch lists does not affect well-formedness |
| `Assignment.ScanFindsFirstNearest` | Assets/CreateTree.cs:146-159 | the inner loop, started with no closest branch, holds none exactly when no branch end is in influence range, and otherwise holds exactly the first branch, in list order, among those at minimal distance |
| `Assignment.AssignAll` | Assets/CreateTree.cs:144-160 | the first loop keeps every point's position and every reference names an existing branch |
| `Assignment.AssignPicksFirstNearest` | Assets/CreateTree.cs:144-160 | with references reset beforehand, every point ends up with its first nearest in-range branch, or none exactly when none is in range |
| `Assignment.RegisterAppendsAssigned` | Assets/CreateTree.cs:163-170 | registration changes only scratch lists, and branch k's list grows by exactly the positions of the points that chose k, in list order |
| `Assignment.AssignedToNonEmpty` | Assets/CreateTree.cs:165-169 | branch k receives a position exactly when some point chose k |
| `Assignment.CurrentEmptyIffNoneClaimed` | Assets/CreateTree.cs:163-172 | `currentAttractionPoints` is empty exactly when no point has a closest branch |
| `Assignment.RegisterNothingClaimed` | Assets/CreateTree.cs:163-170 | when no point has a closest branch, registration leaves the arena unchanged |
| `Removal.ResetClosest` | Assets/CreateTree.cs:215-218 | the reset leaves every point with no closest branch and its position unchanged |
| `Removal.HitsCountReached` | Assets/CreateTree.cs:220-226 | the loop over new branches records only index i, and records something exactly when some new end is within kill distance |
| `Removal.HitsTwiceIffReachedTwice` | Assets/CreateTree.cs:220-226 | index i is recorded at least twice exactly when two distinct new branch ends are within kill distance of its point |
| `Removal.DeletingOnceLeavesSurvivors` | Assets/CreateTree.cs:228-229 | removing once-recorded indices, highest first, leaves exactly the unreached points, in order, and the rest of the list untouched |
| `Removal.KillPass` | Assets/CreateTree.cs:213-229 | the corrected pass deletes exactly the points within kill distance of a new branch, keeps the others in order, and leaves all references cleared |
| `Removal.AsWrittenAgreesOnSingleHits` | Assets/CreateTree.cs:213-229 | when no point is within kill distance of two new branches, the pass as written succeeds and equals the corrected pass |
| `Removal.DoubleHitThrows` | Assets/CreateTree.cs:220-229 | the last point, reached by two new branches, is recorded twice; the second `RemoveAt` runs past the end (exception), while the corrected pass keeps the other point |
| `Removal.DoubleHitDeletesNeighbour` | Assets/CreateTree.cs:220-229 | the first point, reached by two new branches, is recorded twice; the second `RemoveAt(0)` deletes an unreached neighbour, which the corrected pass keeps |
| `Removal.DoubleHitsHappen` | Assets/CreateTree.cs:220-229 | on concrete points (two new ends at the origin, kill distance 1, one point at the origin and one at (10, 0, 0)) the pass as written throws in one order and deletes the unreached point in the other, while the corrected pass keeps it |
| `Removal.AsWrittenRecordsMore` | Assets/CreateTree.cs:213-227 | the source's deletion list is never shorter than one entry per reached point, and strictly longer once a point is within kill distance of two new branches |
| `Removal.DoubleHitDiverges` | Assets/CreateTree.cs:213-229 | a point within kill distance of two new branches makes the pass as written throw or delete more points than were reached |
| `Removal.AsWrittenAgreesIffSingleHits` | Assets/CreateTree.cs:213-229 | the pass as written equals the corrected pass exactly when no index is recorded twice, that is, exactly when no point is within kill distance of two distinct new branch ends |
| `Growth.Start` | Assets/CreateTree.cs:101-109 | the initial generator is valid, with one childless root at (0, -radius - drop, 0) below the crown, pointing up, of the configured branch length and radius (so its end is one branch length above its start), and one unclaimed attraction point per crown position |
| `Growth.PullsMeanAttraction` | Assets/CreateTree.cs:144-170 | a branch receives positions exactly when it is the first nearest in-range branch end of some point; `currentAttractionPoints` is empty exactly when no branch end is in influence range of any point |
| `Growth.SpawnCount` | Assets/CreateTree.cs:184-208 | the spawn loop appends one branch per branch that passes the gate (points registered, at most three children) |
| `Growth.SpawnAppends` | Assets/CreateTree.cs:184-208 | every appended branch hangs off a gated branch, starts at its end, and points along the normalised sum of the normalised pulls of its points |
| `Growth.SpawnFresh` | Assets/CreateTree.cs:206 | every appended branch has the configured length and radius, no children and no points |
| `Growth.SpawnOrdered` | Assets/CreateTree.cs:184-208 | appended branches hang off branches already in the list, in strictly increasing parent order |
| `Growth.SpawnKeepsExisting` | Assets/CreateTree.cs:184-208 | existing branches change only in their child lists; a gated branch gains exactly one child at the end, others none |
| `Growth.SpawnKeepsCapped` | Assets/CreateTree.cs:186 | the `<= 3` gate keeps every branch at four children or fewer |
| `Growth.SpawnKeepsWellFormed` | Assets/CreateTree.cs:184-211 | the spawn loop keeps the arena well formed |
| `Growth.SpawnNothingGated` | Assets/CreateTree.cs:184-208 | when no branch passes the gate, nothing is spawned |
| `Growth.ClearScratch` | Assets/CreateTree.cs:232-235 | the clean-up empties every scratch list and changes nothing else |
| `Growth.GrownKeepsExisting` | Assets/CreateTree.cs:163-176 | after registration and the fallback, each existing branch holds exactly its pulls as scratch; outside the fallback no child list changes |
| `Growth.GrownBootstrap` | Assets/CreateTree.cs:172-176 | the fallback appends one branch straight up from the end of the last branch, which had no children, with the configured length and radius |
| `Growth.MaySpawnIffGated` | Assets/CreateTree.cs:186 | the spawn gate read on the registered arena is exactly "attracts some point and has at most three children" |
| `Growth.GrownCapped` | Assets/CreateTree.cs:163-176 | registration and the fallback keep every branch at four children or fewer |
| `Growth.StepAsWritten` | Assets/CreateTree.cs:134-248 | the iteration with the source's removal pass: when it completes, the scratch lists are empty; with no points it completes and finishes |
| `Growth.NoDoubleHitMeansNoTwoEnds` | Assets/CreateTree.cs:213-227 | no index of this iteration is recorded twice exactly when no point is within kill distance of two distinct branch ends appended this iteration |
| `Growth.StepAsWrittenAgrees` | Assets/CreateTree.cs:213-242 | the source's iteration equals the corrected `Growth.Step` exactly when no point is within kill distance of two new branches; otherwise it throws before the clean-up or keeps fewer points |
| `Growth.Step` | Assets/CreateTree.cs:134-248 | scratch collections are empty after the step; with no points left it only finishes; otherwise the iteration counter advances; a finished generator stays finished |
| `Growth.StepKeepsValid` | Assets/CreateTree.cs:134-248 | one iteration keeps the arena well formed, with at most four children per branch, scratch lists empty and no point claimed |
| `Growth.StepKeepsFields` | Assets/CreateTree.cs:184-211 | an existing branch keeps everything but its child list |
| `Growth.StepChildLists` | Assets/CreateTree.cs:172-211 | an existing branch's child list gains exactly one entry, at the end, exactly when it is gated or carries the fallback, and is unchanged otherwise |
| `Growth.StepAppends` | Assets/CreateTree.cs:172-211 | with the fallback, one upward branch on the last branch; otherwise one branch per gated branch in parent order, each at its parent's end along the normalised sum of pulls; all of configured length and radius, childless |
| `Growth.StepRemovesReached` | Assets/CreateTree.cs:213-229 | the points left are exactly those no new branch end reaches within kill distance, in their original order |
| `Growth.StepProgress` | Assets/CreateTree.cs:239-242 | the point set never grows, the branch list never shrinks, and a step that does not finish adds at least one branch |
| `Growth.StepFallback` | Assets/CreateTree.cs:172-182 | when no point is in reach, iterations 1 to 14 grow the last branch straight up, iteration 15 adds nothing and finishes, later ones finish |
| `Growth.SpawnedGated` | Assets/GenerateShape.cs:170-194 | outside the fallback each new branch hangs off a gated branch, starts at its end and points along the normalised sum of its pulls |
| `Growth.SpawnedOrdered` | Assets/GenerateShape.cs:170-197 | outside the fallback the new branches come in strictly increasing parent order |
| `Growth.SpawnedFresh` | Assets/GenerateShape.cs:161-192 | every new branch, fallback included, has the configured length and radius and no children |
| `Growth.BootstrapSpawnsNothing` | Assets/GenerateShape.cs:158-194 | in the fallback no branch has registered points, so the spawn loop adds nothing |
| `Growth.GatedChildren` | Assets/GenerateShape.cs:170-194 | outside the fallback a branch gains one child exactly when gated, at the end of its list |
| `Growth.BootstrapChildren` | Assets/GenerateShape.cs:158-164 | in the fallback only the last branch, previously childless, gains a child, and no branch is gated |
| `Growth.NothingGatedNothingSpawned` | Assets/GenerateShape.cs:170-194 | with no gated branch and no fallback, the arena after spawning is the registered one |
| `Growth.UnreachedAttractsNothing` | Assets/GenerateShape.cs:130-156 | a point set out of influence range attracts no branch |
| `IndexBuffers.FanShape` | Assets/CreateGeometry.cs:77-82 | cap fan triangle j is (centre, base + j + 1, base + j), 3 indices per slice |
| `IndexBuffers.BandAt` | Assets/CreateGeometry.cs:108-117 | quad j of a band is (b+j, t+j, b+j+1), (b+j+1, t+j, t+j+1) |
| `Skinning.Propose` | Assets/CreateGeometry.cs:147-149 | a child's proposal raises its parent to the child's radius plus the increase when larger and changes nothing else |
| `Skinning.SetRadii` | Assets/CreateGeometry.cs:142-151 | radii only grow; when parents precede children every parent ends at least the increase thicker than each child, each radius is its own or a child's plus the increase, and the root, its own parent, is raised once more |
| `Skinning.StartingIndices` | Assets/CreateGeometry.cs:51-58 | branch i's startingIndex is i * (slices + 2), the vertex count before its ring; nothing else about it changes |
| `Skinning.RingAt` | Assets/CreateGeometry.cs:51-75 | branch i's ring of its own radius occupies i(s+2) .. i(s+2)+s, and its centre comes right after |
| `Skinning.VertexCount` | Assets/CreateGeometry.cs:51-75 | the vertex list is the rings in branch order, n(s+2) vertices |
| `Skinning.TriangleCount` | Assets/CreateGeometry.cs:77-118 | the index list has 9sn entries: a cap fan per branch, the root stitch, one stitch per non-root branch |
| `Skinning.CapsInRange` | Assets/CreateGeometry.cs:72-82 | every cap index names a vertex |
| `Skinning.TrianglesInRange` | Assets/CreateGeometry.cs:29-118 | with two or more branches every index names a vertex |
| `Skinning.SingleBranchOutOfRange` | Assets/CreateGeometry.cs:88-100 | with one branch the root stitch's last index 2s + 1 lies past the s + 2 vertices |
| `Skinning.StitchTriangle` | Assets/CreateGeometry.cs:102-118 | index position 3sn + 6s + 6s(i-1) + 6j + k holds corner k of quad j between the parent's ring and branch i's ring |
| `Skinning.StitchJoinsParentRing` | Assets/CreateGeometry.cs:103-117 | each non-root branch is stitched to its parent's ring: every corner names slice j or j + 1 of the parent's ring or of its own |
| `Skinning.RimsCarryRadius` | Assets/CreateGeometry.cs:58-70 | slice j of the ring at branch i's startingIndex is branch i's rim vertex of branch i's radius |
| `Skinning.CreateMesh` | Assets/CreateGeometry.cs:23-27 | the mesh keeps every branch but radius and startingIndex; radii only grow; parents end at least the increase thicker than children; every rim vertex carries its branch's final radius; the index list has 9 * slices entries per branch, every index names a vertex once there are two branches, and every stitch quad of a non-root branch joins its parent's ring to its own |
| `Skinning.StitchesReachParents` | Assets/CreateGeometry.cs:103-118 | for every non-root branch i, slice j and corner k, the stitch entry at its place in the index list names slice j or j + 1 of the parent's ring or of branch i's own ring |
| `Prototype.FixedRadius` | Assets/CreateCylinder.cs:17 | every branch's ring radius is 0.2, whatever the branch's own radius |
| `Prototype.CreateGeometry` | Assets/CreateCylinder.cs:77-138 | the prototype throws exactly when there are fewer than eleven branches; otherwise its vertices are the fixed-radius rings |
| `Prototype.PassesBase` | Assets/CreateCylinder.cs:123-126 | after n passes the running base is the first vertex of ring c, c counting the branches among 1 .. n-1 that have children |
| `Prototype.PassesJoinConsecutiveRings` | Assets/CreateCylinder.cs:104-138 | the stitching loop joins ring k to ring k + 1 for k = 0 .. c, never following a parent link |
| `Prototype.PrototypeLayout` | Assets/CreateCylinder.cs:77-138 | the index list is the cap fans followed by bands between consecutive rings k(s+2), (k+1)(s+2); 3sn + 6s(c+1) indices |
| `Prototype.PrototypeRingsFixed` | Assets/CreateCylinder.cs:81-91 | the vertex at i(s+2) + j is slice j of branch i's ring at radius 0.2 |
| `Prototype.PairsFewerThanBranches` | Assets/CreateCylinder.cs:106-137 | on a well-formed arena of eleven or more branches, fewer bands are stitched than there are branches |
| `Prototype.PrototypeInRange` | Assets/CreateCylinder.cs:96-137 | on a well-formed arena of eleven or more branches every index names a vertex |
| `Sphere.Awake` | SCA_TreeGen/Assets/GenerateShape.cs:52-62 | the attraction points are the crown vertices; one root stub from the origin along up, ending at origin + up * branchLength |
| `Sphere.SphereVertexCount` | SCA_TreeGen/Assets/GenerateShape.cs:69-93 | two poles plus (stacks - 1) rings of slices + 1 vertices |
| `Sphere.SpherePoles` | SCA_TreeGen/Assets/GenerateShape.cs:69-93 | the north pole is the first vertex and the south pole the last |
| `Sphere.SphereVertexAt` | SCA_TreeGen/Assets/GenerateShape.cs:72-90 | slice j of ring i sits at 1 + (slices + 1)(i - 1) + j, strictly between the poles |
| `Sphere.SphereIndexCount` | SCA_TreeGen/Assets/GenerateShape.cs:97-125 | with two or more stacks the index list has 6 * slices * (stacks - 1) entries |
| `Sphere.SphereInRange` | SCA_TreeGen/Assets/GenerateShape.cs:97-125 | with two or more stacks every index names a vertex |
| `Sphere.FewStacksOutOfRange` | SCA_TreeGen/Assets/GenerateShape.cs:97-102 | with 0 or 1 stacks (allowed by the inspector range) only the poles exist, yet the top fan names vertex 2 |
| `Sphere.TopFanNamesNorthPole` | SCA_TreeGen/Assets/GenerateShape.cs:97-102 | top-fan triangle j is (north pole, ring 1 slice j + 1, ring 1 slice j) |
| `Sphere.MiddleQuadJoinsRings` | SCA_TreeGen/Assets/GenerateShape.cs:103-117 | middle band i, quad j joins slices j, j + 1 of ring i + 1 to those of ring i + 2 |
| `Sphere.QuadEntries` | SCA_TreeGen/Assets/GenerateShape.cs:105-116 | quad j of middle band i holds the indices base + i R + j, ... with R = slices + 1 |
| `Sphere.BottomFanNamesSouthPole` | SCA_TreeGen/Assets/GenerateShape.cs:118-125 | bottom-fan triangle j is (south pole, last ring slice j, last ring slice j + 1) |
| `Sphere.LastRingStart` | SCA_TreeGen/Assets/GenerateShape.cs:118-119 | the last ring starts slices + 1 before the south pole |
| `Cylinder.CylinderVertexAt` | SCA_TreeGen/Assets/CreateCylinder.cs:44-89 | 2 * slices + 4 vertices: upper rim h at h, lower rim h at slices + 1 + h, the top centre at 2 * slices + 2 and the bottom centre last |
| `Cylinder.CylinderIndexCount` | SCA_TreeGen/Assets/CreateCylinder.cs:93-143 | the index list has slices * 2 * 6 entries, the source's numIndices |
| `Cylinder.SideQuadJoinsRows` | SCA_TreeGen/Assets/CreateCylinder.cs:95-113 | side quad h is (upper h, upper h+1, lower h), (upper h+1, lower h+1, lower h) |
| `Cylinder.TopCapMeetsCentre` | SCA_TreeGen/Assets/CreateCylinder.cs:115-128 | top-cap triangle h is (upper h, top centre, upper h+1): patchIndexTop is the centre appended at line 88 |
| `Cylinder.BottomCapMeetsCentre` | SCA_TreeGen/Assets/CreateCylinder.cs:130-143 | bottom-cap triangle h is (lower h, lower h+1, bottom centre) |
| `Cylinder.CylinderInRange` | SCA_TreeGen/Assets/CreateCylinder.cs:93-143 | for every natural number of slices every index names a vertex |
| `Cylinder.IndicesFitShort` | SCA_TreeGen/Assets/CreateCylinder.cs:99-138 | while the largest vertex index fits a `short` (up to 16382 slices) every index does |
| `Cylinder.TopCentreLeavesShort` | SCA_TreeGen/Assets/CreateCylinder.cs:122 | from 16383 slices on, patchIndexTop exceeds the largest `short` |

## Left out

- Floating point: vectors and radii are reals. `Vector3.Normalize` is a function parameter of the growth step, because its rounding and zero-vector behaviour are not modelled. Distances are compared through their squares, which is exact over the reals.
- Randomness: `GenerateAttractionPoints` and the root's `Random.Range(5.0f, 7.5f)` drop become parameters of `Growth.Start`. The seed handling is not modelled.
- Vertex coordinates: the trigonometry, `Quaternion.FromToRotation`, and the sphere's normals. Vertices are modelled by role: which branch, ring and slice, at which radius.
- Unity plumbing is not modelled:
  - the `MonoBehaviour` lifecycle (`Awake`, `Update` calling the step once per frame, `DrawGeometry`);
  - `Mesh` assignment, `RecalculateNormals`, `Optimize`;
  - `Debug.Log` and `Debug.Break`;
  - all gizmo drawing;
  - the list-to-array copy loops, which are identities.
- Running the step to a fixpoint: the model proves per-step progress (`Growth.StepProgress`), but not termination of the whole run.
- The call at `Assets/GenerateShape.cs:117` passes three arguments to a two-argument `CreateGeometry`, and both growth files declare a global `Branch`. These are cross-file build issues. The growth step is modelled once; that call is not modelled.
- `Growth.Step`: built on the corrected `Removal.KillPass`. When a point is within kill distance of two new branch ends, the source's iteration throws before its clean-up or deletes a point no branch reached (see Findings). `Growth.StepAsWritten` models that iteration, and `Growth.StepAsWrittenAgrees` says exactly when the two agree. The state left behind by the exception is not modelled. The same holds for the lemmas about `Growth.Step`, including `Growth.StepKeepsValid` and `Growth.StepRemovesReached`.
- `Skinning.CreateMesh`: the slice count is a natural number. The source's `int slices` may be negative; the ring loop then adds only the centre vertex per branch and no triangles. That case is not modelled.
- `Prototype.CreateGeometry`: the slice count is a natural number. A negative `int slices` in the source gives one centre vertex per branch and no triangles; that case is not modelled.
- `Skinning.CalculateMesh` itself states only the branch count. What it builds is stated by the lemmas about it in the table above.
- `Prototype.CreateGeometry`: `None` stands for the out-of-range exception thrown when fewer than eleven branches exist. The partly built lists are discarded with it.
- `Cylinder.IndicesFitShort`: C# leaves a float-to-`short` cast of an out-of-range value unspecified. Only the in-range case is modelled, plus the point where it stops holding (`Cylinder.TopCentreLeavesShort`).
- The SCA cylinder's float `slices` is modelled as a natural number, and its float index arithmetic as exact integer arithmetic. This is exact below 2^24.
- `Sphere.Awake`: the stub branch's `pointsInRange` is never initialised in the source and is not modelled.

## Findings

| source | as written | input that shows it | evidently intended | confidence | as-written member | corrected member |
|---|---|---|---|---|---|---|
| Assets/CreateTree.cs:220-229 | index i is added to `pointsToDelete` once for every new branch within kill distance of point i, and the list is then removed with successive `RemoveAt` calls | any point within kill distance of two new branch ends in one iteration; concretely two new ends at the origin, kill distance 1, point a at the origin and b at (10, 0, 0): index 0 is recorded twice and the second `RemoveAt(0)` deletes b; with a and b swapped the second `RemoveAt(1)` throws | each reached point is deleted once and the other points are kept | not executed | `Removal.KillPassAsWritten` and `Growth.StepAsWritten` (shown by `Removal.DoubleHitDeletesNeighbour`, `Removal.DoubleHitThrows` and `Growth.StepAsWrittenAgrees`) | `Removal.KillPass` |
