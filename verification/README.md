# Verified models of the server's algorithmic cores

This project models the self-contained algorithms of a Call of Duty 4 game server written in C and C++ and
proves what they are for. It is plain Dafny 4.11; `dafny verify dfyconfig.toml` covers all of it. One module per topic:

- **Collision queries** (`Vectors`, `SegmentDistance`, `CapsuleTriangle`, `CullBox`, `Clip`, `SlabTest`,
  `CullCauses`, `SightBrush`, `Touching`, `BspDescent`, `AabbWalk`): over exact reals, each query is tied to a statement about points:
  the least distance between two segments, whether a capsule comes close to a triangle, whether a swept box and a
  node box share a point, the exact stretch of a segment inside a box or a brush, the leaves a swept box passes
  through, the triangles under an unculled leaf.
- **Checksums and digests** (`ByteOrder`, `Crc32`, `Md5`, `Md5Answers`): the slicing-by-16 CRC refines the bit-by-bit one for
  every buffer, and the streaming MD5 context gives the digest of RFC 1321 for every way of cutting a message.
- **Command pipeline** (`CommandText`, `CommandBuffer`, `Tokenizer`, `TokenWords`, `ConfigRoundTrip`,
  `ConfigConverse`, `ConfigExec`): what the buffer's text means, the in-place command buffer with commands that change it while it
  runs, the re-entrant tokenizer with its shared arena, and exactly which configs survive being written and executed.
- **Indexes and schedulers** (`Ascii`, `MachineWord`, `Script`, `HashChain`, `PackIndex`, `CvarIndex`, `SearchPath`,
  `TimedEvents`, `Filter`): fast or in-place structures against the simple thing they stand for.

Code that computes a value from its arguments is a function with lemmas; code that changes state is a class or a
method with loops, proved against such functions. Where a function is used by the code and by its specification, a
further lemma says what it computes without it: half-spaces and capsules in terms of points, digests and checksums by
published answers, words, letters and entries in terms of characters.

## How to read the main results

| topic | start with |
|---|---|
| segment distance | `SegmentDistance.DistanceIsMinimal`: a convex quadratic on the unit square; every branch lands on a point where the slopes point outward |
| capsule and triangle | `CapsuleTriangle.CapsuleTestExact`: soundness by the three tests, completeness by walking from a close point towards the projection until an end, the plane or an edge is met |
| box cull | `CullBox.CullIsExact`: pairwise overlap of three intervals of time gives a common time |
| clipping | `Clip.ClipAllExact`: induction over the faces; shared by the slab test and the brush |
| the two slab tests | `CullCauses.VerdictsDifferIff`: when each test culls, and when their verdicts differ, from the face distances alone; `Touching.MeetsButGivenUpIff`: when a segment that meets is given up |
| BSP descent | `BspDescent.Tracer.TraceThroughTree`: whatever the box meets before the final fraction lies in a leaf that was visited; `BspDescent.TraceToFirstStop`: so the trace finds the first stop |
| CRC | `Crc32.Crc32_16Bytes`, by linearity of the bit step over exclusive or |
| MD5 | `Md5.DigestOfChunks` |
| tokenizer | `Tokenizer.CommandTokenizer.Perform`: every balanced run leaves the outer arguments as they were |
| command buffer | `CommandText.BreakIsFirstSeparator` for what the scan finds, `CommandBuffer.Buffer.Execute` for runs whose commands insert, append and wait |
| config | `ConfigConverse.ConfigRoundTripsIff`: which lists of entries come back, and `ConfigExec.SaveAndExec` with the buffer and tokenizer themselves |
| pack files | `PackIndex.Pack.Find`: when the hash chain finds what scanning the pack would find |
| search path | `SearchPath.RunWellFormedIff`: which runs keep every directory and pack base name unique |
| timed events | `TimedEvents.PassConserves`, `TimedEvents.FiresTheSameIff` and `TimedEvents.PassIsOrderedIff`: a pass whose handlers add events |
| filter | `Filter.FilterIsGlobIff`: for which patterns taking leftmost places is right |

## Where the code does not do what one would expect

The model follows the code; each of these is stated and proved.

- A config does not come back for every set of variables that can be registered. It comes back exactly when every
  name is non-empty, has no blank and opens no comment, and every value has no quote and no line end
  (`ConfigConverse.RegisteredRoundTripIff`; for any names, `ConfigConverse.ConfigRoundTripsIff`). `a//b` can be
  registered and is lost (`ConfigConverse.CommentInNameIsLost`). A config that is inserted and executed also runs one
  empty command at its end.
- A triangle without area is never hit, however close the capsule (`CapsuleTriangle.DegenerateIsRejected`), not even
  around one of its corners (`CapsuleTriangle.DegenerateIsMissed`). For a positive radius the test tells closeness for
  all segments exactly when the triangle has area (`CapsuleTriangle.ExactForAllIffArea`).
- The slab test that keeps only the leave fraction can let a segment through that the test of both ends rejects
  (`CullCauses.LeaveOnlyCanMissACull`); it never discards a hit (`SlabTest.LeaveOnlyKeepsHits`). The verdicts differ
  exactly when nothing the leave-only test looks at culls, yet some face is entered no earlier than a face that comes
  later in the loops is left (`CullCauses.VerdictsDifferIff`).
- Clipping gives up on some segments that meet the box or brush (`Touching.TouchingIsCulled`). A segment meets exactly
  when no face has both distances positive, none is entered after the end and none is entered after another is left;
  it is given up all the same exactly when one of these comparisons is an equality (`Touching.MeetsButGivenUpIff`;
  `Touching.BoxMetButCulledIff` and `Touching.BrushMetButGivenUpIff` say it of boxes and brushes).
- A colon counts as a slash when pack file names are compared, but not when they are hashed, so a lookup can miss an
  equal entry (`PackIndex.ColonMisses`). It finds what a scan of the pack would find exactly when there is nothing to
  find or the last equal entry has the request's hash (`PackIndex.HitIsSameIff`, `PackIndex.Pack.Find`), so always
  when neither has a colon in the hashed part (`PackIndex.Pack.ColonFreeIsReachable`).
- A directory whose path does not fit its field is added again each time (`SearchPath.AddedTwiceIff`). In general a
  list stays free of duplicates exactly when each directory is stored as something new
  (`SearchPath.AddDirectoryWellFormedIff`, `SearchPath.RunWellFormedIff`).
- A question mark in a filter passes over the end of the name, and behind a star it makes the star stand for nothing
  (`Filter.QuestionMarkAfterStarLoses`). A pattern without brackets is judged rightly on all names exactly if it has no
  question mark (`Filter.FilterIsGlobIff`).
- Of timed events with the same time, the one added last fires first (`TimedEvents.LaterAddedFiresFirst`).
- Of the events that handlers add during a pass, those that are due fire in the same pass
  (`TimedEvents.AddedFiresIffDue`, with an input in `TimedEvents.AddedFiresAtOnce`). What fires is the same as without
  them exactly when nothing they add is due (`TimedEvents.FiresTheSameIff`), and the pass fires in order exactly when no
  handler adds an event for a time before that of the event it handles (`TimedEvents.PassIsOrderedIff`).
- The comment before `Cvar_Register` says the value of a variable that exists is not set unless the new registration
  is read-only. The code replaces a variable exactly if a user created it and it is now read-only, or a cheat while
  cheats are off (`CvarIndex.ReplacedIff`, `CvarIndex.ValueIsSetIff`): a cheat that is not read-only takes the new
  value (`CvarIndex.CheatReplaces`), and a read-only variable of the program's own does not (`CvarIndex.ReadOnlyKeeps`).

## Model

| member | source | states |
|---|---|---|
| SegmentDistance.CoeffsConvex | src/cm_mesh.cpp:1278-1285 | the coefficients computed from any two segments form a convex quadratic: non-negative diagonal and determinant, and consistent linear terms when a direction vanishes or the two are parallel |
| SegmentDistance.QuadraticIsDistance | src/cm_mesh.cpp:1265-1343 | the quadratic in these coefficients is the squared distance of the two segment points |
| SegmentDistance.OptimalPoint | src/cm_mesh.cpp:1286-1343 | a point of the unit square whose slopes point outward is a minimum over the square |
| SegmentDistance.MinimumOfIsMinimum | src/cm_mesh.cpp:1285-1343 | for every convex quadratic the value returned, on every branch, is attained in the unit square and is a lower bound there |
| SegmentDistance.DistanceIsMinimal | src/cm_mesh.cpp:1265-1343 | the result is the least squared distance over all pairs of points of the two segments, parallel and zero-length ones included |
| CapsuleTriangle.OverIsPointOverTriangle | src/cm_mesh.cpp:1140-1162 | the over-triangle test says whether the point's scaled coordinates lie in the triangle's simplex |
| CapsuleTriangle.GramDeterminant | src/cm_mesh.cpp:1140-1162 | the squared distance to the plane, times the determinant, splits off the in-plane part for any two edge vectors |
| CapsuleTriangle.PlanarSplit | src/cm_mesh.cpp:1140-1162 | distance to any triangle point is height plus a form in the differences of in-plane coordinates |
| CapsuleTriangle.EdgeTestsExact | src/cm_mesh.cpp:1243-1257 | the three edge distances decide whether some segment point and some point of the outline are closer than the radius |
| CapsuleTriangle.LeaveTowardsProjection | src/cm_mesh.cpp:1167-1259 | a close point whose projection falls outside can be moved to the outline without losing closeness |
| CapsuleTriangle.WalkAlongSegment | src/cm_mesh.cpp:1167-1259 | between a close point over the triangle and a place where the segment is no longer over it, the segment is close to the outline |
| CapsuleTriangle.DecisionSound | src/cm_mesh.cpp:1167-1259 | an accepted non-degenerate triangle is closer than the radius or pierced |
| CapsuleTriangle.DecisionComplete | src/cm_mesh.cpp:1167-1259 | a triangle with a point closer than the radius is accepted |
| CapsuleTriangle.DegenerateIsRejected | src/cm_mesh.cpp:1198-1212 | a triangle without area is always rejected |
| CapsuleTriangle.CapsuleTestExact | src/cm_mesh.cpp:1167-1259 | for all inputs: accepted exactly when the triangle has area and is closer than the radius to the segment or properly crossed by it |
| CapsuleTriangle.CapsuleTestIsNear | src/cm_mesh.cpp:1167-1259 | with a positive radius and area: accepted exactly when some segment point and some triangle point are closer than the radius |
| CapsuleTriangle.DegenerateIsMissed | src/cm_mesh.cpp:1198-1212 | for every positive radius and triangle without area: a capsule around its corner is close and is not accepted |
| CapsuleTriangle.ExactForAllIffArea | src/cm_mesh.cpp:1167-1259 | for a positive radius the routine tells closeness for all segments exactly when the triangle has area |
| CullBox.BoxesMeetIsAxesMeet | src/cm_trace.cpp:2946-2957 | the swept box and the node box share a point exactly when at one time all three axis distances are within the summed sizes |
| CullBox.CrossOverlap | src/cm_trace.cpp:2450-2462 | a cross test passes exactly when the times of overlap on its two axes meet |
| CullBox.CommonTime | src/cm_trace.cpp:2429-2464 | three stretches of time that meet pairwise have a common time |
| CullBox.CullIsExact | src/cm_trace.cpp:2429-2464 | without the axial shortcut the cull fires exactly when the swept box and the node box share no point |
| CullBox.AxialCullIsSound | src/cm_trace.cpp:2429-2464 | with the shortcut, a cull still means they share none |
| CullBox.AxialCullIsExact | src/cm_trace.cpp:2429-2449 | with the shortcut the cull fires exactly when on some axis the boxes share no point at any time of the motion |
| Clip.ClipFaceExact | src/cm_tracebox.cpp:24-56 | one face keeps exactly the part of a window inside it; giving up leaves at most one fraction |
| Clip.ClipAllExact | src/cm_tracebox.cpp:7-64 | for any list of faces the surviving window is exactly the part inside all; giving up leaves at most one fraction |
| Clip.ClipSurvives | src/cm_tracebox.cpp:7-64 | a window with room survives exactly when two different fractions are inside |
| Clip.NothingStrictlyInside | src/cm_trace.cpp:519-668 | if clipping the whole segment gives up, no fraction strictly between 0 and 1 is strictly inside all faces |
| SlabTest.InsideIsInBox | src/cm_tracebox.cpp:7-64 | being inside the six faces is lying in the closed box |
| SlabTest.ReciprocalGivesCrossing | src/cm_trace.cpp:1792-1809 | multiplying with the stored reciprocal gives the crossing fraction of a slab face |
| SlabTest.ClipSlab | src/cm_tracebox.cpp:22-57 | one step of the loop clips against one slab face, including its early return |
| SlabTest.WindowMeaning | src/cm_tracebox.cpp:7-64 | the six faces leave exactly the fractions whose point lies in the box; they reject exactly when no two different fractions do |
| SlabTest.IntersectExtentsAabb | src/cm_tracebox.cpp:7-64 | returns 1 with [enterFrac, leaveFrac] equal to the fractions of the given stretch in the closed box, 0 when at most one fraction is |
| SlabTest.TraceBoxBothEnds | src/cm_tracebox.cpp:67-74 | the overload from 0 to the fraction, negated, culls exactly when the clip gives up |
| SlabTest.LeaveClipSlab | src/cm_trace.c:30-50 | one axis of the leave-only test: early return or lowered fraction, for every sign of the two distances |
| SlabTest.TraceBoxInternal | src/cm_trace.c:23-53 | one pass over three axes is the leave-only clip of three faces |
| SlabTest.TraceBoxLeaveOnly | src/cm_trace.c:55-68 | two passes with the fraction carried over are the leave-only clip of six faces |
| SlabTest.CheapCullIsCull | src/cm_trace.c:23-68 | the leave-only clip never gives up before the clip of both ends, and they agree on the leave fraction |
| SlabTest.LeaveOnlyKeepsHits | src/cm_trace.c:55-68 | a segment with two different fractions in the box is never culled |
| CullCauses.LeaveOnlyCullsIff | src/cm_trace.c:23-53 | for any list of faces and any fraction: the leave-only test gives up exactly when a face has both distances positive, is left at a crossing of at most 0, or is entered at a crossing of at least the fraction or of a face left before it in the list; what survives is the least leave |
| CullCauses.BothEndsCullIff | src/cm_tracebox.cpp:7-64 | the test of both ends gives up exactly for the same reasons with the order of the faces dropped; what survives is the greatest enter and the least leave |
| CullCauses.VerdictsDifferIff | src/cm_trace.c:23-68 | the verdicts differ exactly when no cause of the leave-only test is present and some face is entered no earlier than a later one is left; a cull of the leave-only test is always a cull of the other |
| CullCauses.LeaveOnlyCanMissACull | src/cm_trace.c:55-68 | a concrete segment that misses the box, culled by the test of both ends only |
| CullCauses.CompareTests | src/cm_trace.c:55-68 | the two routines themselves, run on one segment and box, disagree exactly under that condition on the face distances |
| SightBrush.InsideIsInBrush | src/cm_trace.cpp:551-619 | being inside all axial and side faces is lying in the brush expanded by the capsule's size, and the same for strictly inside |
| SightBrush.ClipAxial | src/cm_trace.cpp:551-590 | one axial face of the brush bounds, distances moved by the box size, as a clip |
| SightBrush.ClipSide | src/cm_trace.cpp:606-663 | one brush side, plane moved by radius and capsule offset, as a clip |
| SightBrush.SightMeaning | src/cm_trace.cpp:519-668 | clipping the segment against all faces survives exactly when two different fractions are inside; then the enter fraction is the least one inside; otherwise nothing is strictly inside |
| SightBrush.CapsuleReach | src/cm_trace.cpp:614 | no point of the capsule reaches farther against a unit normal than its center less radius and upright part, and some point reaches as far |
| SightBrush.ExpandedIsTouched | src/cm_trace.cpp:614 | for a unit normal: a center is within the pushed-out distance exactly when the capsule around it has a point in the side's half-space, and likewise strictly |
| SightBrush.ExpandedBrushIsTouched | src/cm_trace.cpp:551-619 | the expanded brush, bounds included, holds exactly the centers around which the capsule has a point in each half-space of the brush |
| SightBrush.SightTraceThroughBrush | src/cm_trace.cpp:519-668 | non-zero result: the trace fraction is the least at which the point is in the expanded brush, for any number of sides; zero: the trace is unchanged and no fraction in (0, 1) is strictly inside; for the capsule the set-up makes and unit normals the same in terms of points of the capsule in the brush's half-spaces |
| Touching.MeetsIff | src/cm_tracebox.cpp:7-64 | for any list of faces: some fraction of the stretch is inside all exactly when no face has both distances positive, none is entered after the end, and none is entered after another is left |
| Touching.GivesUpIff | src/cm_tracebox.cpp:7-64 | clipping gives up exactly when the segment misses in that sense, or one of the comparisons is an equality |
| Touching.MeetsButGivenUpIff | src/cm_tracebox.cpp:7-64 | a segment that meets is given up exactly when none of the comparisons fails and one is an equality |
| Touching.BoxMetButCulledIff | src/cm_tracebox.cpp:7-74 | the same of points in a box and the faces of its slabs |
| Touching.BrushMetButGivenUpIff | src/cm_trace.cpp:519-668 | the same of points in the expanded brush and its faces, for any number of sides |
| Touching.TouchingIsCulled | src/cm_tracebox.cpp:7-74 | a concrete segment and box: the point at 0.5 is in the box, and the segment is culled |
| BspDescent.DistanceTellsSide | src/cm_trace.cpp:2536-2552 | the plane distance, computed by one coordinate for axial planes, has the sign of the side of the half-space the point lies in, given by the normal |
| BspDescent.Margin | src/cm_trace.cpp:2534-2553 | a point of the box is never farther from a plane than its center by more than the offset less 1/8, for axial and general planes |
| BspDescent.SplitAsserts | src/cm_trace.cpp:2562-2597 | the asserted bounds on the two split fractions hold over the reals |
| BspDescent.SplitCovers | src/cm_trace.cpp:2562-2605 | a center within the offset of a side lies in the stretch handed to that side's child, in all three split cases |
| BspDescent.OneSided | src/cm_trace.cpp:2554-2615 | a segment wholly beyond the margin needs only that child |
| BspDescent.BothSided | src/cm_trace.cpp:2556-2606 | whatever a straddling segment meets is met by one of the two stretches handed down |
| BspDescent.StretchStaysNear | src/cm_trace.cpp:2556-2606 | no center of a stretch handed to a child is farther from its half-space than the offset, but for the tolerance of parallel segments |
| BspDescent.LeadsUpFromNear | src/cm_trace.cpp:2556-2606 | a leaf some center of a handed-down stretch is near of, from the child on, some center of the whole segment is near of |
| BspDescent.Tracer.TraceThroughTree | src/cm_trace.cpp:2513-2618 | terminates, only lowers the fraction; every leaf whose half-spaces hold a box point at a fraction below the final one has been visited, and no leaf is visited unless some center of the segment is within reach of each of its half-spaces |
| BspDescent.TraceBox | src/cm_trace.cpp:3057-3068 | both for the whole trace, in terms of points of the segment from start to end; the final fraction is what testing the visited leaves in order makes of the first |
| BspDescent.TraceToFirstStop | src/cm_trace.cpp:3057-3068 | if each leaf stops the box at a fraction at which the box reaches it, or not at all, the final fraction is the least over all leaves of the tree, visited or not |
| AabbWalk.World.CulledIffMissed | src/cm_mesh.cpp:897 | a node is culled exactly when the moving box misses its box: at every time, or under the axial shortcut on some axis at all times |
| AabbWalk.World.SolidInner | src/cm_mesh.cpp:897-912 | an inner node that the moving box meets has a reached hit exactly when one of its children has |
| AabbWalk.World.SolidLeaf | src/cm_mesh.cpp:913-933 | a leaf that the moving box meets has a reached hit exactly when its partition has a passing triangle |
| AabbWalk.Walk.BeginTrace | src/cm_trace.cpp:2002-2021 | a new stamp makes every partition untested |
| AabbWalk.Walk.TestPartition | src/cm_mesh.cpp:913-933 | a partition is tested once per stamp; start-solid exactly when one of its triangles passes |
| AabbWalk.Walk.PositionTestInAabbTree | src/cm_mesh.cpp:886-935 | start-solid exactly when some partition with a passing triangle lies under a leaf such that the moving box meets its box and those of all its ancestors; no partition is tested twice in a trace |
| AabbWalk.Walk.MeshTestInLeaf | src/cm_mesh.cpp:853-881 | the same over the trees of a leaf, stopping at the first hit |
| Crc32.BlockChecksumKey32 | src/filesystem.c:3260-3279 | the bit-by-bit routine computes the checksum by polynomial division from any key |
| Crc32.ChecksumConcat | src/filesystem.c:4373-4384 | the checksum of a concatenation is the second part's checksum continued from the first's |
| Crc32.BitsLinear | src/crc.c:64-76 | any number of bit steps is linear over exclusive or |
| Crc32.ByteStep | src/crc.c:711-714 | eight bit steps are a shift by a byte and the table entry of the low byte |
| Crc32.BuildLookup | src/crc.c:64-76 | the recipe fills slice k with k + 1 whole-byte divisions of every byte |
| Crc32.Absorb | src/crc.c:685-704 | a register can be added into the bytes ahead of it instead |
| Crc32.SixteenEntries | src/crc.c:689-704 | sixteen bytes from register zero are the exclusive or of sixteen entries, one from each slice, in the order of the code |
| Crc32.SliceRound | src/crc.c:685-704 | one unrolled round advances the register over sixteen bytes |
| Crc32.Crc32_16Bytes | src/crc.c:649-717 | equals the bit-by-bit checksum for every buffer, length and previous value |
| Crc32.CalculateChecksumForFile | src/filesystem.c:4373-4384 | the block loop gives the checksum of the bytes read, and each block's own checksum, up to 256 blocks of 2 MB |
| Crc32.BothRoutines | src/crc.c:649-717 | running the fast routine over two parts equals the slow routine over the whole |
| Crc32.CheckValue | src/filesystem.c:3260-3279 | the checksum of the nine digits 123456789 is 0xcbf43926 |
| Md5.Round1 | dis/md5.c:88-103 | the first sixteen steps are operations 1 to 16 of section 3.4 of RFC 1321 |
| Md5.Round2 | dis/md5.c:105-120 | steps 17 to 32, with the round function written through the first |
| Md5.Round3 | dis/md5.c:122-137 | steps 33 to 48 |
| Md5.Round4 | dis/md5.c:139-154 | steps 49 to 64 |
| Md5.Transform | dis/md5.c:78-160 | the in-place transform adds the result of the 64 operations to the state |
| Md5.AddBits | dis/md5.c:171-176 | the two-word bit count with its carry is the bit length mod 2^64 |
| Md5.WaitingBytes | dis/md5.c:178 | the low word alone tells how many bytes wait in the block, even after the count has wrapped |
| Md5.Context.constructor | dis/md5.c:51-60 | a new context stands for the empty message |
| Md5.Context.Update | dis/md5.c:166-209 | afterwards the context is the chain over the complete blocks of everything fed in, its remainder, and its bit length mod 2^64 |
| Md5.Context.Final | dis/md5.c:216-258 | returns the digest of everything fed in, by sections 3.1 to 3.5 of RFC 1321, and wipes the context |
| Md5.DigestOfChunks | dis/md5.c:51-258 | however a message is cut into updates, the digest is that of the concatenation |
| Md5Answers.RotateIsArithmetic | dis/md5.c:70-71 | rotating by each amount in use is multiplying by a power of two mod 2^32 and adding what overflows |
| Md5Answers.AmountIsOneOfThem | dis/md5.c:88-154 | every operation rotates by one of these amounts |
| Md5Answers.EmptyDigest | dis/md5.c:51-258 | the digest of the empty message is that of appendix A.5 of RFC 1321, worked out through all 64 operations |
| Md5Answers.AbcDigest | dis/md5.c:51-258 | the digest of abc is that of appendix A.5 of RFC 1321, worked out likewise |
| CommandBuffer.Buffer.Grow | src/cmd.c:82-105 | the storage is enlarged without touching the live text; fails only when it has to grow and cannot |
| CommandBuffer.Buffer.AddText | src/cmd.c:76-115 | appends the text, or leaves the buffer alone when growing fails |
| CommandBuffer.Buffer.MoveUp | src/cmd.c:160-163 | the overlapping move towards the end keeps the live text |
| CommandBuffer.Buffer.InsertText | src/cmd.c:126-174 | puts the text and a line end in front of the live text |
| CommandText.BreakIsFirstSeparator | src/cmd.c:239-270 | the break is the least index of a semicolon outside quotes and comments, a line end outside star comments, or the end of a star comment, or the end of the text; stated by counting quotes and comment openers, without a scan |
| CommandText.BreakLeavesNoComment | src/cmd.c:239-270 | a break before the end of the text leaves no comment open |
| CommandText.CommandsRebuildText | src/cmd.c:218-303 | the commands and the single characters dropped between them make up the text, for over-long commands too |
| CommandText.PlainRun | src/cmd.c:218-303 | with commands that leave the buffer alone, all commands of the text run in order and nothing is left |
| CommandText.BreakStays | src/cmd.c:239-270 | a break that lies within a text stays where it is, whatever follows the text |
| CommandText.CommandsConcat | src/cmd.c:218-303 | if each command of a text ends within it, the commands of the text and what follows are its commands and then those of what follows |
| CommandText.LinesEnd | src/cmd.c:239-270 | so for every text that ends with a line end and opens no star comment |
| CommandText.InsertedRunsNext | src/cmd.c:126-174 | after a command that inserts text, all commands of that text run, and then those of what was pending |
| CommandText.AppendedRunsLast | src/cmd.c:76-115 | the commands of appended text run behind all that were pending |
| CommandText.WaitOnlyDelays | src/cmd.c:218-237 | a pending wait delays the commands by that many frames and changes nothing else |
| CommandText.WaitStopsTheFrame | src/cmd.c:480-488 | a command that waits ends its frame, which is the first one waited for; with a wait of 0 or nothing behind it the frame goes on |
| CommandText.NothingRunsMeanwhile | src/cmd.c:230-236 | while frames are waited for nothing runs and the text stays |
| CommandText.RestRunsAfterWait | src/cmd.c:230-236 | the rest runs, whole and once, in the frame after those waited for |
| CommandText.CommandFits | src/cmd.c:272-277 | a command is what comes before its break, cut to 8191 characters |
| CommandBuffer.Buffer.ScanCommand | src/cmd.c:239-270 | the scanning loop stops at the break, with the comment state there |
| CommandBuffer.Buffer.TakeCommand | src/cmd.c:239-290 | takes exactly the first command out and leaves the rest, for over-long lines too |
| CommandBuffer.Buffer.Perform | src/cmd.c:76-174 | what a running command inserts, appends or asks to wait acts on the pending text as specified |
| CommandBuffer.Buffer.Execute | src/cmd.c:218-303 | one frame: the lines executed and the text and wait left are those of the specified run, for any commands that insert, append and wait while the buffer runs |
| Tokenizer.LayoutExtended | src/cmd.c:742-800 | a token written at the free end becomes the last one and disturbs none before it |
| Tokenizer.CommandTokenizer.FindToken | src/cmd.c:714-740 | the skipping loops stop at the next token or the end, past blanks and comments |
| Tokenizer.CommandTokenizer.StoreToken | src/cmd.c:742-804 | copies one token and its terminator into the arena; refuses it when less than two characters of room would be left |
| Tokenizer.CommandTokenizer.TokenizeInternal | src/cmd.c:692-807 | appends exactly the tokens of the text to those already laid out; no write leaves the arena |
| Tokenizer.CommandTokenizer.TokenizeString | src/cmd.c:814-851 | pushes one string's tokens, or reports too many strings, or the fatal null free pointer |
| Tokenizer.CommandTokenizer.EndTokenizedString | src/cmd.c:665-678 | pops the innermost string and leaves all others; fatal when there is none |
| Tokenizer.CommandTokenizer.LayoutPrefix | src/cmd.c:665-678 | dropping the last tokens leaves the first dropped pointer as the free end |
| Tokenizer.CommandTokenizer.Argc | src/cmd.c:558-564 | the number of tokens of the innermost string |
| Tokenizer.CommandTokenizer.Argv | src/cmd.c:572-591 | the token of the innermost string, or the empty string beyond its count |
| Tokenizer.CommandTokenizer.Perform | src/cmd.c:539-851 | any balanced run of nested tokenize and end calls leaves every outer string, and so the outer count and arguments, as it was; it raises the fatal error exactly when some call is nested while no text with a token has ever been tokenized |
| TokenWords.OneToken | src/cmd.c:765-804 | a word, with quotes in it where they are ignored, is one token if there is a slot and room for it, and otherwise none |
| TokenWords.TwoTokens | src/cmd.c:714-740 | two words apart by blanks or by a star comment are two tokens |
| TokenWords.QuotedToken | src/cmd.c:742-763 | text in quotes is one token without them, whatever blanks and comment openers are in it |
| ConfigRoundTrip.WriteVariables | src/cvar.c:1934-1957 | one line per archived variable, the latched value if there is one, over-long ones skipped |
| ConfigRoundTrip.SavedIff | src/cvar.c:1934-1957 | an entry is saved exactly when an archived variable has its name and, latched or else current, its value, and the line fits |
| ConfigRoundTrip.SavedInOrder | src/cvar.c:1934-1957 | entries are saved one for each such variable, in order |
| ConfigRoundTrip.VariableComesBack | src/cvar.c:1934-1957 | one more variable adds its name and latched value, or its value if none is latched, to what comes back |
| ConfigRoundTrip.GoodLineIsOneCommand | src/cmd.c:218-303 | a good line is split off whole, whatever follows |
| ConfigRoundTrip.GoodConfigSplits | src/cmd.c:218-303 | a written config splits into its lines and one empty command |
| ConfigRoundTrip.LineTokens | src/cmd.c:692-807 | a good line has exactly the tokens seta, name and value |
| ConfigRoundTrip.GoodConfigRoundTrips | src/cvar.c:1934-1957 | any list of good entries comes back as its argument lists, in order |
| ConfigConverse.LineEndCuts | src/cmd.c:266-269 | the first line end in a value ends the command there, quotes or not |
| ConfigConverse.ReturnedNameIsClean | src/cmd.c:692-807 | a name that comes back as the second of three tokens is a clean word, whatever follows its line |
| ConfigConverse.ConfigRoundTripsIff | src/cvar.c:1934-1957 | for every list of entries the writer does not skip: it comes back, in order and followed by one empty command, exactly when every name is a clean word without semicolon and every value has no quote or line end |
| ConfigConverse.RegisteredRoundTripIff | src/cvar.c:136-150 | for names that pass the check of a new variable: the config comes back exactly when every name is non-empty, has no blank and opens no comment, and every value has no quote or line end |
| ConfigConverse.CommentInNameIsLost | src/cvar.c:136-150 | the name a//b passes the check of a new variable, and its entry does not come back |
| ConfigExec.ExecuteString | src/cmd.c:814-851 | tokenizing, reading all arguments back and ending gives the tokens of the line and leaves the strings of outer commands as they were |
| ConfigExec.SavedConfigRuns | src/cvar.c:1934-1957 | a saved config in front of any pending text runs as its triples, an empty command, and then what was pending |
| ConfigExec.SaveAndExec | src/cvar.c:1934-1957 | writing, inserting in front of any pending text, splitting and tokenizing with the buffer and tokenizer themselves gives the triples of all saved variables and then the pending commands; under a pending wait nothing runs and the text is kept |
| Filter.RestStar | src/common.c:1231-1247 | a star matches exactly when what follows matches from some later place |
| Filter.LeftmostIsEnough | src/common.c:1231-1247 | trying only the leftmost occurrence of the literals after a star loses no match |
| Filter.NoOccurrenceNoMatch | src/common.c:1242-1245 | without an occurrence the filter rightly fails |
| Filter.StringContains | src/common.c:1194-1217 | returns the leftmost place where the literals stand, or none, with or without case |
| Filter.JudgeIsRest | src/common.c:1225-1311 | for patterns of literals and stars the leftmost choices decide, from any place in pattern and name, exactly whether some beginning of the rest of the name matches the rest of the pattern |
| Filter.LiteralsStart | src/common.c:1296-1308 | a pattern of literals matches exactly the names that begin with it, or without regard to case with the same letters |
| Filter.QuestionMarkMisleads | src/common.c:1248-1250 | every pattern with a question mark has a name, too short for it, on which the routine does not fail although no beginning of it matches |
| Filter.FilterIsGlobIff | src/common.c:1225-1311 | for patterns without brackets: the routine judges all names as the pattern means it exactly if the pattern has no question mark |
| Filter.QuestionMarkAfterStarLoses | src/common.c:1231-1250 | a concrete pattern with a question mark behind a star, and a name that matches it and is refused |
| Filter.Filter | src/common.c:1225-1311 | for all patterns without brackets the loop gives the specified verdict, reading behind the end of the name included; without question marks that is whether some beginning of the name matches the whole pattern |
| Ascii.Stricmp | src/qshared.c:170-229 | zero exactly for strings that differ in the case of ASCII letters only |
| Ascii.SameIgnoringCaseIff | src/qshared.c:190-205 | equal ignoring case are exactly strings of one length whose characters are the same or the two cases of a letter |
| MachineWord.MaskIsRemainder | src/filesystem.c:1160 | masking with a power of two less one is the remainder |
| MachineWord.SignedIsCongruent | src/common.c:203 | wrapping around gives the value in the range of a signed word that differs by a multiple of 2^32 |
| HashChain.LinkInFront | src/filesystem.c:2583-2584 | linking a new entry in front of its chain keeps every chain |
| HashChain.EachInOneChain | src/cvar.c:735-737 | following a chain visits each entry of its slot once, newest first, and nothing else |
| HashChain.ChainIsEnoughIff | src/cvar.c:160-167 | walking the slot's chain finds what scanning all entries finds exactly when that is nothing or lies in the slot |
| PackIndex.FilenameCompare | src/filesystem.c:975-1002 | zero exactly for names equal up to letter case and separators |
| PackIndex.FoldTells | src/filesystem.c:975-1002 | two characters count as the same exactly if they are one letter in any case or both slash, backslash or colon |
| PackIndex.HashFileName | src/filesystem.c:1138-1162 | the loop computes the weighted letter sum up to the first dot, wrapped, mixed and masked |
| PackIndex.SameFileSameHash | src/filesystem.c:1138-1162 | names that compare equal have the same hash, if neither has a colon before its first dot |
| PackIndex.TableSize | src/filesystem.c:2539-2548 | the least power of two above the number of entries, at most 2048 |
| PackIndex.HashIsRemainder | src/filesystem.c:1160 | for the power-of-two sizes a table has, the slot is the mixed hash mod the size |
| PackIndex.HitIsSameIff | src/filesystem.c:1218-1260 | the chain leads to the last entry that compares equal exactly when there is none or that entry has the request's hash |
| PackIndex.HitIsSame | src/filesystem.c:1218-1260 | without colons in the hashed parts it always does |
| PackIndex.Pack.constructor | src/filesystem.c:2541-2586 | every entry, in lower case, is linked into the chain of its hash |
| PackIndex.Pack.EachEntryInOneChain | src/filesystem.c:2583-2584 | every entry lies in exactly the chain of its mixed hash mod the table size, newest first |
| PackIndex.Pack.ReachableIff | src/filesystem.c:1218-1260 | the last equal entry with the same hash is the last equal entry of the zip exactly when the latter has the request's hash, or is none |
| PackIndex.Pack.ColonFreeIsReachable | src/filesystem.c:1138-1162 | without colons in the hashed parts that condition always holds |
| PackIndex.Pack.Find | src/filesystem.c:1218-1260 | for all names: the last equal entry with the same hash; it is the last equal entry of the zip exactly when that is none or has the request's hash |
| PackIndex.Pack.Open | src/filesystem.c:1194-1260 | one leading slash is dropped; names with two dots or two colons in a row are rejected; then another language's localized entry is skipped; others are looked up, with the same exact condition for all names and packs |
| PackIndex.ColonMisses | src/filesystem.c:1138-1162 | a concrete pack and name with a colon for which the lookup misses an equal entry |
| CvarIndex.GenerateHashValue | src/cvar.c:100-114 | the loop computes the weighted lower-case sum, masked to 512 slots |
| CvarIndex.HashIsRemainder | src/cvar.c:100-114 | the slot is the weighted sum mod 512 |
| CvarIndex.SameNameSameHash | src/cvar.c:100-114 | names equal under the upper-casing comparison have the same lower-casing hash |
| CvarIndex.HitIsFind | src/cvar.c:157-170 | the chain of the name's slot leads to what a scan of all variables finds |
| CvarIndex.RegisterKeepsDistinct | src/cvar.c:605-749 | registering never makes two variables of one name |
| CvarIndex.RegisteredIsFound | src/cvar.c:605-749 | afterwards the name, in any case, leads to the registered variable, every other name to what it led to, and no other variable changes |
| CvarIndex.ReplacedIff | src/cvar.c:625-630 | a variable that is there is set up anew exactly if a user created it and it is now read-only, or a cheat while cheats are off |
| CvarIndex.ValueIsSetIff | src/cvar.c:627-704 | a string variable that is there takes the requested value exactly if it is replaced or had that value latched; otherwise the latched value becomes current and the requested one only the reset value |
| CvarIndex.SetUpAsRequested | src/cvar.c:717-790 | a variable that is added or replaced has the name, type, flags and, for strings, the value requested |
| CvarIndex.MergedFlagsAre | src/cvar.c:658-709 | a merged variable is a user's exactly if registered as one, and has every other flag it had or is registered with |
| CvarIndex.OtherTypeIff | src/cvar.c:636-641 | registering fails for the type exactly if a variable of that name with another type is there and no user created it |
| CvarIndex.CheatReplaces | src/cvar.c:625-630 | a concrete registration that is not read-only and sets the value all the same |
| CvarIndex.ReadOnlyKeeps | src/cvar.c:627-704 | a concrete read-only registration that keeps the value |
| CvarIndex.RunsKeepDistinct | src/cvar.c:605-749 | so after any series of registrations |
| CvarIndex.CvarSystem.FindVar | src/cvar.c:157-170 | the walk through the bucket returns the variable of that name in any case, or none |
| CvarIndex.CvarSystem.FindIsListScan | src/cvar.c:157-170 | following the list of all variables from its head gives the same variable |
| CvarIndex.CvarSystem.EachVarInOneChain | src/cvar.c:732-737 | every listed variable lies in exactly one chain, once |
| CvarIndex.CvarSystem.LinkNew | src/cvar.c:717-737 | a new variable is taken from the table and linked into list and chain |
| CvarIndex.CvarSystem.Rewrite | src/cvar.c:739-749 | rewriting in place under the same name in any case keeps list and chains right |
| CvarIndex.CvarSystem.RegisterVar | src/cvar.c:605-749 | replaces, merges, appends or fails exactly as specified on the list of variables, texts of string variables included, and keeps the index right |
| SearchPath.InsertKeepsOrder | src/filesystem.c:3070-3081 | linking in keeps all localized entries behind all others |
| SearchPath.InsertMakesNoClashIff | src/filesystem.c:3026-3081 | linking in makes no duplicate exactly if the stored entry is new |
| SearchPath.RemoveKeepsWellFormed | src/filesystem.c:2783-2811 | removing any entry keeps the path well formed |
| SearchPath.FreeAfterRemoval | src/filesystem.c:3223-3232 | removing the first pack of a base name removes the only one |
| SearchPath.DirectoryIsAddedIff | src/filesystem.c:3026-3064 | a directory is put in the list exactly if none with its path and game directory is there and, if localized, it has content |
| SearchPath.GameDirIs | src/filesystem.c:3014-3022 | the game directory is the given one, or its language directory, cut to 63 characters |
| SearchPath.BaseNameDropsEnding | src/filesystem.c:2555-2560 | a pack's base name is its file name without the ending .iwd in any letter case, if anything is left in front of it |
| SearchPath.NewestComesFirst | src/filesystem.c:3070-3081 | what is linked in comes first among its kind, and the others keep their order |
| SearchPath.LastPackComesFirst | src/filesystem.c:3217-3254 | of the packs of a directory the last one is found first among its kind, and no other of its base name is left |
| SearchPath.AddDirectoryWellFormedIff | src/filesystem.c:3003-3085 | adding a directory with its packs keeps order and uniqueness exactly if nothing is added or the stored entry is new |
| SearchPath.RunWellFormedIff | src/filesystem.c:3003-3085 | a run of additions and removals keeps them after every step exactly if each directory is stored as something new |
| SearchPath.RunKeepsWellFormed | src/filesystem.c:3003-3085 | so every run whose paths fit their field keeps them throughout |
| SearchPath.AddedTwiceIff | src/filesystem.c:3026-3064 | adding one directory twice keeps the path well formed exactly if its path fits the field |
| SearchPath.RunKeepsStored | src/filesystem.c:3063-3064 | whatever is asked for, only truncated paths are in the list |
| SearchPath.FileSystem.ShutdownSearchpath | src/filesystem.c:2783-2811 | unlinks exactly the given entry; nothing if it is not in the list; the linked list is a sequence here, so the walk is over indices and unlinking is cutting the sequence |
| SearchPath.FileSystem.Link | src/filesystem.c:3070-3081 | inserts at the specified place; the walk with a pointer to the previous link is an index walk over a sequence here |
| SearchPath.FileSystem.HasDirectory | src/filesystem.c:3026-3047 | finds exactly an entry with the same path and game directory, ignoring case |
| SearchPath.FileSystem.AddIwdFiles | src/filesystem.c:3217-3254 | each loaded pack replaces one of the same base name and goes where its kind belongs |
| SearchPath.FileSystem.AddGameDirectorySingle | src/filesystem.c:3003-3085 | does what is specified on the list of entries and sets the game directory; a well-formed list stays so exactly if what is stored is new |
| TimedEvents.InsertKeepsSorted | src/common.c:182-245 | inserting keeps the buffer sorted |
| TimedEvents.InsertAddsOne | src/common.c:182-245 | inserting adds exactly the new event |
| TimedEvents.PassIsExact | src/common.c:410-434 | one pass fires exactly the due events and keeps exactly the others, as multisets |
| TimedEvents.PassIsOrdered | src/common.c:410-434 | events fire in non-decreasing time, and what is kept stays sorted |
| TimedEvents.AddingCommutesWithPass | src/common.c:410-434 | an event that is not due may be added before or after a pass with the same outcome |
| TimedEvents.LaterAddedFiresFirst | src/common.c:203-217 | of two events with the same time the one added later fires first |
| TimedEvents.PassConserves | src/common.c:410-434 | whatever events handlers add during a pass: fired and kept together are what was there and what found room; all fired are due, nothing due is left, and what is kept is sorted |
| TimedEvents.AddedFiresIffDue | src/common.c:410-434 | of the events that handlers add and that find room, exactly those that are due fire in the same pass; the others are kept |
| TimedEvents.FiresTheSameIff | src/common.c:410-434 | the pass fires the same as without its handlers exactly when nothing that they add and that finds room is due |
| TimedEvents.PassIsOrderedIff | src/common.c:410-434 | the pass fires in order exactly when, at every step, nothing added is for a time before that of the event just fired |
| TimedEvents.AddedFiresAtOnce | src/common.c:410-434 | two concrete passes: an event added for the current time fires at once, and one added for an earlier time fires out of order |
| TimedEvents.OnTimePassIsOrdered | src/common.c:410-434 | a check on the requests alone: if none is for a time before that of the pass, it fires in order |
| TimedEvents.LaterRequestsFireLater | src/common.c:410-434 | a check on the requests alone: if none is due, what fires is unchanged |
| TimedEvents.PassWithoutAdding | src/common.c:410-434 | handlers that add nothing leave the pass that fires the due events and keeps the others |
| TimedEvents.TimedEventBuffer.Shift | src/common.c:203-217 | the in-place shift opens the gap at the specified place |
| TimedEvents.TimedEventBuffer.AddTimedEvent | src/common.c:182-245 | inserts the event, with the trigger time wrapped to 32 bits; full buffer and too many arguments are reported |
| TimedEvents.TimedEventBuffer.GetTimedEvent | src/common.c:302-316 | takes the next event exactly if it is due |
| TimedEvents.TimedEventBuffer.TimedEventLoop | src/common.c:410-434 | fires the events and leaves the buffer of the specified pass, for any handlers that add events while it runs |

## Left out

- Floating point: rounding, NaN checks and overflow; all geometry is over exact reals.
- The routines that take square roots (sphere, cylinder and vertex traces) and decompiled routines whose text does not match their intent: the AABB-tree trace, the closest point on a triangle, the full brush trace, the sight trace through the tree.
- The capsule-in-triangle position test of the tree walk is an abstract predicate per triangle; material and surface flags are not set. The mask test of `CM_MeshTestInLeaf` is a list of the trees that pass it.
- `VectorSubstract` and `Vec3Lerp` are not part of the files modelled; they are read as c = a - b and start + f (end - start). A statement of the BSP descent that lacks its semicolon is read as `frac = min(frac, 1.0)`.
- BspDescent.Tracer.TraceThroughTree: a leaf is a function from fraction to fraction that does not raise it; what is tested in a leaf is not modelled.
- TimedEvents.OnTimePassIsOrdered: goes one way, as does `TimedEvents.LaterRequestsFireLater`, because requests that are never reached or find no room do no harm; the exact conditions are in `TimedEvents.PassIsOrderedIff` and `TimedEvents.FiresTheSameIff`.
- AabbWalk.Walk.BeginTrace: needs a stamp below 2^31 - 1, because the counter's wrap-around is not modelled; thread-local storage is one record.
- Clip.ClipFaceExact: is stated for windows within [0, 1], the only ones the routines use.
- The 4096 literals of the CRC table (the recipe above them is modelled instead), other slice counts, and big-endian builds of CRC and MD5.
- The cache of file checksums by name and length, and reading from disk: the file's content is a sequence cut into full blocks.
- Md5.Context.Update: takes fewer than 2^32 bytes per call, the range of its length argument.
- CommandBuffer.Buffer.Execute: what each command does is given as a list of insertions, appends and waits, for which the storage can always grow; which command a line names is not looked up.
- CommandBuffer.Buffer.Grow: copies the live bytes only; the first growth in the source also reads past the static buffer.
- Tokenizer.CommandTokenizer.TokenizeString: requires that the tokens stay below MAX_STRING_TOKENS, because at that number the source stores one pointer past the list; the tokenizer's null text pointer and the printed error messages are left out.
- Tokenizer.CommandTokenizer.Argv: takes a non-negative index.
- ConfigExec.SaveAndExec: requires that the tokenizer can take each pending command, as `Tokenizer.CommandTokenizer.TokenizeString` does, and that the commands leave the buffer alone.
- Conversion of values to text (enum, vector and colour variables), `Cvar_Restart_f`, and which command the arguments are finally handed to.
- Filter.Filter: leaves out bracket patterns and the size of the local copy of the literals. Where the source reads behind the end of the name the outcome is a verdict of its own.
- Ascii.Stricmp: compares whole strings, while the source stops after 99999 characters, and says nothing about the sign of an unequal result, which none of these callers looks at.
- PackIndex.SameFileSameHash: goes one way; what decides a lookup is whether the hashes agree, and `PackIndex.HitIsSameIff` says so both ways.
- PackIndex.Pack.constructor: takes the entry names as they were read; truncation to 256 characters and unreadable entries are left out, as are file positions and pack checksums. `long` is 32 bits, as on the platforms built.
- PackIndex.Pack.Open: leaves out what reading the found entry can report; whether the entry of the search path is for another language is an input.
- CvarIndex.CvarSystem.RegisterVar: keeps values of string variables only, without the cut of a latched text at 8192 characters; of other types, limits, descriptions, modification marks and the strings freed it keeps nothing, so a variable that turns into a string has no text to take over. Whether the value is valid for its type is an input.
- SearchPath.FileSystem.AddGameDirectorySingle: takes as input whether the localized directory has content and which packs could be loaded; sorting and language names are left out, as is `FS_AddGameDirectory`, which only repeats it.
- TimedEvents.TimedEventBuffer.AddTimedEvent: the buffer has the one capacity it is checked against; an argument count that ends the program leaves the buffer unspecified.
- TimedEvents.TimedEventBuffer.TimedEventLoop: what each handler adds is given as a list of requests; freeing cached arguments and null handlers are left out.
- Threads, critical sections, file and network access, logging, plugins, inline assembly and binary patching.
