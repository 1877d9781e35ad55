# pcb2g core, modelled in Dafny

pcb2g turns a binary raster of a circuit board's copper into tool paths for a
CNC mill. Isolation routes come first, then a drilling order and the outline
cuts. This project models the integer and structural heart of that pipeline
in Dafny and proves properties of the model:

- `basics.dfy` (module `Basics`): raster bytes, points, C's truncating
  division, pixel offsets, and the unlink walk shared by the list code.
- `checksum.dfy` (module `Checksum`): the CRC-16 of the raster (`ucrc`,
  `image_crc`), its four-digit rendering, and `tsx_diff`.
- `image.dfy` (module `Image`): the Bresenham line-of-sight test, the copper
  frame, and the in-place P4 unpacking and P5 thresholding loops of the
  raster reader.
- `neighbourhood.dfy` (module `Neighbourhood`): the 3x3 block mask
  `get_mask` shared by the completion and tracing stages.
- `expand.c` becomes `expand.dfy` (module `Expand`): the morphological
  completion, with its end/T1 passes, recolouring, the or-mask
  bookkeeping, the `l_*` pattern passes and the `bit_e` round loop.
- `fill.dfy` (module `Fill`): the scanline flood fill with its explicit
  stack.
- `polyline.dfy` (module `Polyline`): the polyline store as an arena of point
  sequences with handles, kept in list order, with every mutation of
  `polyline.c`.
- `trace.dfy` (module `Trace`): the skeleton tracer, covering the junction
  scan, the walks from each junction, the artefact removal and the loops
  without a junction.
- `optim.dfy` (module `Optim`): the deviation tree of every polyline, the
  passes over it and the round loop of `optim`.
- `graph.dfy`, `rapids.dfy`, `route.dfy` (modules `Multigraph`, `Rapids`,
  `Route`): the route assembler of `vectorize.c` as functions over graph
  values. These cover the endpoint multigraph, the Drake–Hougardy pairing
  into rapid links, the Euler walks and the order in which components are
  dumped. `vectorize.dfy` (module `Router`) runs the same algorithm as
  methods of a class that owns the graph and the move log, and proves each
  method equal to those functions.
- `rapids_examples.dfy`, `route_examples.dfy`: concrete graphs on which the
  defects listed under Findings show.
- `cut.dfy` (module `Cut`): the cut-file segment chains with their flips,
  joins, tolerance merges, shoelace areas and token scanners.
- `tsp.dfy` (module `Tsp`): the record store of the travelling-salesman
  helper and its swap-only nearest-neighbour fallback.

Raster I/O, the post-processors, floating-point geometry and the external
TSP solver are outside the model. Where the core needs a distance, a
clearance or a significance score, the model takes it as a function
parameter. `image_fill`'s count is one plus the pixels its row scans paint
(`Fill.ImageFill`); it is not the area of the region. A tracer walk that
reaches a traced pixel goes on in the C program (see `Trace.WalkOn` under
"Left out").

## Model

| member | source | states |
|---|---|---|
| Basics.CDiv | image.c:40 | C's `/` truncates toward zero: the quotient of a non-negative dividend is the Euclidean one, the remainder is below the divisor in magnitude, and a negative dividend never gives a positive quotient |
| Basics.Idx | image.c:259-262 | the row-major offset `y * x + c` of an in-raster pixel lies inside the raster |
| Basics.IdxInjective | image.c:259-262 | two pixels share an offset exactly when they are the same pixel |
| Basics.Removed | polyline.c:304-319 | unlinking an element that is on the list shortens it by one; unlinking one that is not leaves the list as it is |
| Basics.RemovedMembers | polyline.c:304-319 | on a list without repeats, unlinking x leaves exactly the other entries, still without repeats |
| Basics.Unlink | polyline.c:308-318 | the pointer-to-next walk cuts out the first entry equal to x, which is `Removed` |
| Checksum.Ucrc | pcb2g.c:42-54 | one byte of the CRC-16 (reflected polynomial 0xA001) is the step on `crc ^ data`: the byte enters only through the exclusive or |
| Checksum.Hex4 | pcb2g.c:66 | `%04X` gives exactly four upper-case hexadecimal digits |
| Checksum.Hex4RoundTrip | pcb2g.c:66 | reading the four digits back gives the checksum, so the text loses nothing |
| Checksum.ImageCrc | pcb2g.c:57-67 | the loop over the first `x * y` raster bytes, from 0xFFFF, yields the four-digit text of the fold `CrcOf` of those bytes |
| Checksum.CrcSnoc | pcb2g.c:63-64 | the checksum of a longer buffer is one more step on the checksum of its prefix |
| Checksum.ModbusCheckValue | pcb2g.c:42-54 | the checksum of the ASCII text "123456789" is 0x4B37, the published check value of CRC-16/MODBUS |
| Checksum.TsxDiff | pcb2g.c:519-533 | the difference of two timestamps is exact in nanoseconds, stays normalised (0 <= nsec < 10^9) when both inputs are, and borrows no second when the nanoseconds do not go negative |
| Image.BresLineTest | image.c:35-62 | the line-of-sight test returns -1 exactly when some pixel of the Bresenham walk between the two ends is copper (0) in the original raster, else 0 |
| Image.BresEnds | image.c:38-60 | the walk starts at the first end and is at the second after exactly max(dx, dy) passes |
| Image.BresNotEarly | image.c:47-48 | the walk is not at the second end before its last pass, so the `break` comes at the last pass |
| Image.BresInBox | image.c:49-59 | every pixel of the walk lies in the bounding box of its two ends |
| Image.BresUnitStep | image.c:49-59 | each pass moves each coordinate by nothing or one unit toward the target, and always moves |
| Image.WalkInRaster | image.c:35-62 | a walk between two raster pixels reads only inside the raster |
| Image.WalkEnds | image.c:47-48 | the walk is at its second end exactly at the last pass |
| Image.CreateBorder | image.c:246-264 | the copper frame: the two top and two bottom rows and the two first and two last columns become 0, and every other pixel is unchanged |
| Image.FramedIdempotent | image.c:246-264 | framing a framed raster again changes nothing |
| Image.PbmPixel | image.c:233-234 | pixel c of a packed P4 row is 0 (copper) exactly when bit `7 - c % 8` of byte `c / 8` is set, else 255 |
| Image.UnpackPackRow | image.c:226-235 | unpacking the PBM packing of any binary row gives the row back: the decoder inverts the format |
| Image.UnpackP4 | image.c:226-235 | after the P4 loop every pixel (c, r) is `PbmPixel` of byte c / 8 of the packed row r as read |
| Image.UnpackRow | image.c:230-234 | the right-to-left pass over a row reads every packed byte before overwriting it and leaves the other rows alone |
| Image.GreyScale | image.c:178 | the P5 level is maxval / 2, rounded down |
| Image.Threshold | image.c:223 | a sample becomes 255 exactly when it is above the level, else 0 |
| Image.ThresholdStable | image.c:219-224 | thresholding a binary raster again at a level below 255 changes nothing |
| Image.ThresholdP5 | image.c:219-224 | without greyscale output every byte is thresholded at `GreyScale(maxval)`; with it the raster is unchanged |
| Neighbourhood.GetMask | expand.c:33-55 | bit b of the 3x3 block mask is set exactly when the neighbour it stands for (3 2 1 / 4 . 0 / 5 6 7) is at most the border level; trace.c:64-85 is the same function |
| Neighbourhood.GetMaskIgnoresCentre | expand.c:33-55 | the mask never depends on the centre pixel |
| Checksum.HexDigitValue | pcb2g.c:66 | each digit of the `%04X` rendering reads back as the value it was written from |
| Image.SetPixel | image.c:246-264 | one pixel write of `create_border`: the pixel at column c, row r becomes v and no other pixel changes |
| Image.PackRow | image.c:226-235 | the packed P4 row the unpacking loop reads: one byte per eight pixels, the last one padded |
| Image.MaskBit | image.c:226-235 | the mask `128 >> k` of the unpack loop selects bit 7 - k of the byte |
| Neighbourhood.Off | expand.c:33-55 | every bit of a block mask stands for a pixel inside the 3x3 block and, on rasters at least two wide, never for its centre |
| Tsp.NewCapacity | tsp.c:81-88 | the reallocation in `tsp_add` always leaves room for the record being added, in whole chunks of 512, and at most one chunk more than the count |
| Tsp.CursorVisitsAll | tsp.c:317-319 | n consecutive `tsp_getnext` calls from any cursor position visit each of the n records exactly once |
| Tsp.Swapped | tsp.c:249-251 | the three-`memcpy` exchange: the two entries trade places, everything else stays, the multiset is kept |
| Tsp.SwappedTwice | tsp.c:268-282 | undoing an exchange by repeating it restores the order, as the improvement pass relies on |
| Tsp.NearestFirstAll | tsp.c:234-254 | once every prefix position holds the nearest of the later entries, the order is greedy (`Greedy`) |
| Tsp.NearestFirstSuffix | tsp.c:234-254 | permuting the entries after position m keeps the first m positions nearest-first, so later outer iterations do not undo earlier ones |
| Tsp.BelowShrinks | tsp.c:263-291 | keeping a strictly shorter tour removes it from the finite set of tours below the bound, the measure that makes the improvement loop end |
| Tsp.NearestPass | tsp.c:234-254 | the first pass of `nn` permutes the first n records, keeps the first record and what lies beyond n, and leaves a greedy order: each entry is followed by the nearest of the later ones |
| Tsp.PullNearest | tsp.c:240-253 | one outer iteration keeps the prefix up to i and the multiset of the rest, and leaves at i + 1 an entry no later entry is strictly nearer to entry i than |
| Tsp.PullStep | tsp.c:246-252 | swapping a strictly nearer entry into position i + 1 keeps the scan's invariant |
| Tsp.Swap | tsp.c:268-270 | an exchange between positions lo and n changes nothing else and keeps the multiset of that window |
| Tsp.PrefixLength | tsp.c:272-276 | the length loop sums the distances along the first k + 1 entries (`PathLen`) |
| Tsp.TrySwap | tsp.c:268-289 | one trial keeps the exchange of entries i and i + 1 exactly when the path becomes strictly shorter than `min`, and otherwise undoes it |
| Tsp.ImproveRound | tsp.c:265-290 | one round of trials keeps the multiset; a round that keeps nothing leaves the order and the bound unchanged and proves it adjacent-optimal, and a round that keeps an exchange strictly lowers the bound to the path's own length |
| Tsp.Improve | tsp.c:263-291 | the improvement pass ends; it keeps the multiset, never raises the bound, and leaves an order where no exchange of neighbours is below the final bound, which is the path's length unless nothing was kept |
| Tsp.ReorderAsWritten | tsp.c:233-291 | `nn` as written: greedy pass, first length sum running one step past the end (adding the distance to the record beyond `count`), then the improvement pass; the result is a permutation characterised by `NnOrdered` |
| Tsp.InflatedOutcome | tsp.c:255-291 | with the inflated first sum, the result is either the untouched greedy order or an adjacent-optimal order of its own length |
| Tsp.InflatedBoundKeepsLongerSwap | tsp.c:255-262 | a four-record example on a line where the inflated bound accepts an exchange that makes the path longer than the greedy order |
| Tsp.Reorder | tsp.c:233-291 | `nn` with the first sum over the path itself: a permutation that is adjacent-optimal at its own length and never longer than the greedy order it started from |
| Tsp.ExactOutcome | tsp.c:262-291 | the improvement pass from the exact first sum ends at an adjacent-optimal order no longer than the greedy one |
| Tsp.CopyPrefix | tsp.c:229 | the `memcpy` copies the first n records and touches nothing beyond them |
| Tsp.Tsp.constructor | tsp.c:65-68 | `tsp_init` gives an empty store with no buffers, not solved, cursor at 0 |
| Tsp.Tsp.Add | tsp.c:75-96 | `tsp_add` appends the record at index `count` (reallocating to the next chunk when full) and returns 0, leaving the solver state alone |
| Tsp.Tsp.AllocateTour | tsp.c:125-209 | the result buffer is allocated with one slot per record and nothing else changes |
| Tsp.Tsp.Nn | tsp.c:213-293 | without a result buffer the input buffer becomes the result; otherwise the records are copied, left as they are below four records, and from four up reordered to a permutation that is adjacent-optimal at its own length and never longer than the greedy nearest-neighbour order of the same records |
| Tsp.Tsp.GetNext | tsp.c:296-322 | the first call without a solver result runs `nn`, marks the store solved and restarts the cursor; every call returns the record under the cursor and moves it on, wrapping at `count` |
| Tsp.TspAdd | tsp.c:75-96 | a null handle gives -1; a live one gets the record appended and returns 0 |
| Tsp.CursorClosedForm | tsp.c:318-320 | the cursor after j further calls from i is i + j, wrapped once at `count` |
| Tsp.TrialKept | tsp.c:267-289 | an exchange whose path is shorter than the bound so far is kept, and its length becomes the bound |
| Tsp.TrialUndone | tsp.c:267-289 | an exchange whose path is not shorter is undone, leaving order and bound as they were |
| Cut.FlipSegmentInvolution | cut.c:69-87 | `flip_segment` exchanges start and end, negates the arc direction, and undoes itself |
| Cut.FlipSegs | cut.c:148-155 | the reversed list of flipped segments: entry k is the flip of entry n-1-k |
| Cut.FlippedInvolution | cut.c:142-163 | `flip_polygon` applied twice restores the chain |
| Cut.FlippedLinked | cut.c:142-163 | a flipped chain whose segments met end to start still does, between its exchanged ends |
| Cut.JoinedLinked | cut.c:124-139 | appending a chain whose start is within tolerance of the first's end keeps the joined chain linked |
| Cut.Attach | cut.c:94-118 | one iteration of `find_polygon`: an attached segment adds one segment and leaves the area alone |
| Cut.AttachShape | cut.c:96-117 | the attached segment, flipped or not, either ends at the chain's start and is prepended (the start moves to its start) or starts at its end and is appended (the end moves to its end) |
| Cut.AttachNoneIff | cut.c:96-118 | a segment attaches to a chain exactly when one of its ends is exactly one of the chain's ends |
| Cut.AttachLinked | cut.c:96-118 | attaching keeps a chain linked and adds exactly one segment |
| Cut.FirstAttach | cut.c:94-120 | the segment goes to the first chain in list order it attaches to; no earlier chain accepts it, and None means none does |
| Cut.ConnectWithLinked | cut.c:172-206 | two chains join exactly when an end of one is within C_TOL (0.0005 per coordinate) of an end of the other, and the join is linked and holds the segments of both |
| Cut.FirstConnect | cut.c:172-206 | `connect_polygons` takes the first other chain in list order that meets g; no earlier one does, and None means none does |
| Cut.JoinPairResult | cut.c:180-203 | after a join, p is unlinked from the list and gone from the store, and g holds the join |
| Cut.Connected | cut.c:292 | `while (connect_polygons (pgs));` ends with g in the store, the list without repeats, and no other chain meeting g |
| Cut.ShoelaceFlip | cut.c:388-402 | running a chain backwards negates its shoelace sum, so the sign test of `rotate_cut` agrees with `flip_polygon` |
| Cut.RotatedOrientation | cut.c:393-403 | with the stored area equal to the shoelace sum, `rotate_cut` leaves a counter-clockwise request with a non-positive sum and a clockwise one with a non-negative sum |
| Cut.PlannedOrientation | cut.c:440-473 | a stitched chain of several segments, once its area is computed and its direction planned, runs clockwise as a hole and counter-clockwise as the outline |
| Cut.OutlineKept | cut.c:440-473 | turning chains keeps their areas, so the outline picked before stays the outline |
| Cut.FlipList | cut.c:148-155 | the link-reversal loop yields the reversed list of flipped segments (`FlipSegs`) |
| Cut.AddShoelace | cut.c:388-389 | the area loop adds the shoelace sum of the chain to the stored area |
| Cut.SkipSpace | cut.c:240-250 | `skip_space` returns the first position at or after i that is not white space, and stays inside the terminated buffer |
| Cut.ArgEndAsWritten | cut.c:225-237 | `skip_arg` as written stops only at '#' or white space; a stop it finds is inside the buffer and is such a character |
| Cut.ArgRunsPastNul | cut.c:227-236 | on "7" followed by the NUL, the scan as written runs past the end of the buffer |
| Cut.SkipArg | cut.c:225-237 | with the NUL as a stop, the end of the token lies inside the buffer, every character before it is a token character and the one at it is not |
| Cut.CutStore.constructor | cut.c:253-258 | the store starts with no chains |
| Cut.CutStore.CreatePolygons | cut.c:210-222 | a fresh chain of the one segment is pushed at the list head, and the chains stay stitched |
| Cut.CutStore.FindPolygon | cut.c:90-121 | the segment joins the first chain that accepts it (`FirstAttach`), with that chain replaced by `Attach`'s result; None and no change when none accepts it |
| Cut.CutStore.Append | cut.c:124-139 | b's segments follow a's, b's end becomes a's end, and b is unlinked from the list and gone |
| Cut.CutStore.FlipPolygon | cut.c:142-163 | the chain is replaced by its flip and nothing else changes |
| Cut.CutStore.JoinBothFlipped | cut.c:183-190 | when p ends where g starts, both are flipped and then appended |
| Cut.CutStore.JoinTailFlipped | cut.c:191-197 | when the two chains end together, p is flipped and appended |
| Cut.CutStore.JoinHeadFlipped | cut.c:198-204 | when the two chains start together, g is flipped and p appended |
| Cut.CutStore.JoinPair | cut.c:177-204 | the join of the first matching case gives exactly `JoinPairResult` |
| Cut.CutStore.ConnectPolygons | cut.c:168-207 | g is joined with the first chain `FirstConnect` finds and 1 is returned (the list one shorter); 0 and no change when there is none |
| Cut.CutStore.ConnectAll | cut.c:292 | the join loop ends, with the store equal to `Connected` of the old one |
| Cut.CutStore.AddSegment | cut.c:280-293 | one segment of the cut file is attached to the first chain that accepts it, and that chain is then joined as far as it goes; otherwise it starts a new chain |
| Cut.CutStore.PolygonArea | cut.c:369-390 | a one-segment chain gets the circle's area; any other gets its shoelace sum added |
| Cut.CutStore.RotateCut | cut.c:393-403 | the chain is flipped exactly when its stored area disagrees with the requested direction |
| Cut.CutStore.ComputeAreas | cut.c:416-417 | every chain gets its area and nothing else changes |
| Cut.CutStore.SelectOutline | cut.c:419-424 | the outline is the first chain whose absolute area is strictly above every earlier one and at least every later one, starting from the list head; it is absent only for an empty list |
| Cut.CutStore.AllClosed | cut.c:426-432 | true exactly when every chain ends where it starts |
| Cut.CutStore.TurnHoles | cut.c:440-447 | every chain but the outline is turned clockwise; the outline is untouched |
| Cut.CutStore.PlanAll | cut.c:440-473 | holes clockwise, then the outline counter-clockwise unless it is a circle; the outline stays the outline and the orientations hold |
| Cut.CutStore.Survey | cut.c:416-432 | areas computed, outline picked, and the closed verdict, in one pass over the store |
| Cut.CutStore.CreateCut | cut.c:407-478 | `create_cut` ends NotClosed (the `exit(1)`) exactly when some chain is open, fails for a missing outline exactly when the list is empty, and otherwise routes with the largest chain as outline, holes clockwise and the outline counter-clockwise |
| Cut.FlipSegsInvolution | cut.c:141-157 | turning a chain's segment list round twice, each segment flipped, restores it |
| Cut.ShoelaceAppend | cut.c:386-390 | the shoelace sum of two joined runs of segments is the sum of their sums |
| Cut.TermFlip | cut.c:68-87 | flipping a segment negates its shoelace term, so a flipped chain reports the opposite direction |
| Polyline.Reversed | polyline.c:266-284 | `polyline_reverse`: the end becomes the old first point, the points run the other way, and a polyline whose last point is its end keeps that invariant |
| Polyline.ReversedInvolution | polyline.c:266-284 | reversing twice restores a polyline whose last point is its end |
| Polyline.ReversedNeedsEnded | polyline.c:271-272 | without that invariant the second reversal does not restore the recorded end (a concrete polyline) |
| Polyline.Extended | polyline.c:217-245 | `polyline_extend`: the first point becomes p and the end is kept; the point list grows by one exactly unless there are two points and p is on their line (integer cross product zero), in which case only the first point moves |
| Polyline.Deleted | polyline.c:303-319 | deleting removes exactly the given polyline from the store and from the list, and the others keep their order |
| Polyline.FirstStart | polyline.c:124-135 | `polyline_search_at_start` finds the first polyline in list order whose first point is p; no earlier one starts there, and None means none does |
| Polyline.FirstMLine | polyline.c:387-421 | the first m-line between a and b in list order: three points, the middle one exactly halfway, ends {a, b} in either order |
| Polyline.EndsMeaning | polyline.c:343-352 | the polylines the scan reverses are exactly those in the list that end at p |
| Polyline.JoinResult | polyline.c:325-370 | `polyline_join_in_point` as meant: -1 exactly for more than two endpoint matches; 1 exactly for two matches on two distinct polylines, p1 then unlinked; otherwise 0 with the list unchanged; every polyline ending at p up to the third match is reversed |
| Polyline.JoinSharedPoint | polyline.c:354-367 | after a join, p2's points are p1's points reversed followed by p2's own, so the shared point appears twice in the middle, and p2's end is kept |
| Polyline.MoveRunDistinct | polyline.c:358-365 | with p1 and p2 distinct, the move loop leaves p1 empty and p2 holding p1's points reversed in front of its own |
| Polyline.AliasedMoveNeverEnds | polyline.c:358-365 | with p1 and p2 the same polyline, no number of passes of the move loop empties p1 |
| Polyline.ClosedLoopMatchesTwice | polyline.c:330-354 | a closed polyline alone in the store with both ends at p is both p1 and p2 of the scan as written |
| Polyline.MovePoints | polyline.c:358-365 | the link-moving loop pushes `from`'s points one by one onto `onto`, giving reverse(from) ++ onto |
| Polyline.ReverseLine | polyline.c:266-284 | the reversal loop computes `Reversed` |
| Polyline.ScanEnds | polyline.c:330-353 | the scan reverses every polyline that ends at p up to the third match, and ends with -1 at the third match or with p1 and p2 the first two matches |
| Polyline.ScanOne | polyline.c:333-352 | one polyline of the scan: its first point, then its end; done exactly when the third match is reached |
| Polyline.MLineDeleted | polyline.c:381-422 | `polyline_delete_m_line`: the first m-line between a and b is deleted and the store is then joined at a and at b; without one the store is unchanged; the store stays well formed |
| Polyline.Store.constructor | polyline.c:288-301 | an empty store |
| Polyline.Store.Start | polyline.c:251-263 | a fresh polyline with the one point p and end p goes to the list head; nothing else changes |
| Polyline.Store.Append | polyline.c:197-209 | p goes in front of the head polyline's points; its end and every other polyline are unchanged |
| Polyline.Store.Extend | polyline.c:217-245 | the head polyline becomes `Extended` of itself; nothing else changes |
| Polyline.Store.SearchAtStart | polyline.c:124-135 | the handle of the first polyline that starts at p (`FirstStart`), or None |
| Polyline.Store.FindAppend | polyline.c:173-190 | q goes in front of the first polyline that starts at p and 1 is returned; 0 and no change when none does |
| Polyline.Store.Reverse | polyline.c:266-284 | the polyline is replaced by `Reversed` of it; nothing else changes |
| Polyline.Store.Delete | polyline.c:303-319 | the store becomes `Deleted`; a handle not in the list changes nothing |
| Polyline.Store.DeleteDefault | polyline.c:100-116 | the list head is deleted; an empty list is left alone |
| Polyline.Store.JoinInPoint | polyline.c:325-370 | the store and result become `JoinResult` (a closed polyline that is both matches is left alone and gives 0) |
| Polyline.Store.JoinPicked | polyline.c:354-369 | once the scan has picked p1 and p2, the join gives `JoinResult` |
| Polyline.Store.DeleteMLine | polyline.c:381-422 | the store becomes `MLineDeleted` |
| Polyline.Rev | polyline.c:267-284 | the reversed points: the same length, the point at k taken from the mirror position |
| Polyline.RevRev | polyline.c:267-284 | reversing twice restores the points |
| Polyline.Hits | polyline.c:330-352 | the matches one polyline contributes to the scan: its first point, then its end, each only when it lies at the point |
| Polyline.MatchesTo | polyline.c:330-352 | every match the scan finds along the first j polylines names a polyline of the list |
| Polyline.RevAt | polyline.c:343-352 | reversing the polylines of a set keeps the handles and the last-point-is-end invariant |
| Polyline.MoveStep | polyline.c:356-364 | one pass of the move loop on two distinct polylines: the first point of p1 is taken off and put in front of p2 |
| Fill.FillStack.constructor | fill.c:37-39 | an empty stack with no recorded depth |
| Fill.FillStack.Reset | fill.c:83 | the depth counters are reset and the stack stays empty |
| Fill.FillStack.Push | fill.c:41-54 | `fill_push` puts the seed on top and the greatest depth becomes the larger of the old one and the new depth |
| Fill.FillStack.Pop | fill.c:56-68 | `fill_pop` removes and returns the top seed; an empty stack gives None and stays empty |
| Fill.ScanLeft | fill.c:108-116 | the left scan paints every pixel from x - 1 leftwards up to a border pixel or column 0, counts one per pixel painted, and changes nothing else |
| Fill.ScanRight | fill.c:119-127 | the right scan paints every pixel from x + 1 rightwards up to a border pixel or the last column, counts one per pixel painted, and changes nothing else |
| Fill.PaintRun | fill.c:98-127 | a popped seed's pixel and the scans to both sides paint the run lo..hi around it, bounded by border pixels or the raster's edges, and count hi - lo |
| Fill.NeighbourSeeds | fill.c:135-170 | a neighbouring row outside the raster gets no seeds, and a row gets at most one seed per column of the run |
| Fill.RowSeedsIn | fill.c:138-151 | the seeds of a row scan lie in that row, between lo and hi, on pixels that are neither border nor fill |
| Fill.RowSeedsCovered | fill.c:138-151 | every pixel of the scanned stretch that needs filling lies in the run of some seed (one seed per maximal unfilled run) |
| Fill.SeedRows | fill.c:135-170 | the row above is seeded first and the row below second, so the stack becomes the lower seeds, then the upper, then the rest; the raster is only read |
| Fill.LiveCountDrops | fill.c:98-127 | painting never creates a pixel that needs filling and any change removes one, the measure that ends the fill loop |
| Fill.ClosedKept | fill.c:92-170 | after a pass every filled pixel has each 4-neighbour filled, border, or covered by a seed on the stack |
| Fill.PathFilled | fill.c:90-97 | completeness: once the stack is empty, every pixel on a non-border 4-connected path from a filled pixel holds fill |
| Fill.HullTight | fill.c:101-104 | the bounding box of the painted runs holds every run, and each of its four sides is reached by a run |
| Fill.RunsKept | fill.c:109-127 | later passes only turn pixels into fill, so a painted run and its bounding border pixels stay as they were |
| Fill.ImageFill | fill.c:71-173 | a border seed gives None and no change; otherwise pixels only turn from "needs filling" into fill, every painted run is bounded by border or the edge, `count` is 1 plus the width of the runs painted (the scan writes), the box is exactly the hull of the runs and holds the seed, `level` is the greatest stack depth (at least one) and the stack ends empty; and when no pixel held fill before, every pixel 4-connected to the seed without crossing border holds fill |
| Fill.Scanline | fill.c:92-170 | one pass of the fill loop paints the popped seed's run, widens the box to exactly that run and adds its width to the count, seeds the rows above and below, and removes a pixel that needs filling or else a stale seed |
| Fill.RowSeeds | fill.c:135-170 | the seeding loop over one neighbouring row pushes at most one seed per column |
| Fill.SeedRow | fill.c:135-170 | the seeding loop pushes exactly `RowSeeds`, on top of the stack, and writes no pixel |
| Expand.LocalRunWrites | expand.c:66-111 | a filter pass writes only `fill`, only over centre pixels above `border`, and only where the current mask is in the catalogue |
| Expand.LocalRunLowers | expand.c:66-111 | with fill at most border, the count a filter pass returns is exactly the drop in the number of pixels above border |
| Expand.LocalRunIdle | expand.c:186-201 | a filter pass that reports no write leaves the raster unchanged |
| Expand.LocalFilter | expand.c:66-111 | the loop over blocks 0..size-1, whose get_mask sees the writes of earlier blocks, yields the raster and count of `LocalRun` |
| Expand.LocalEnd | expand.c:58-112 | `local_end` is `LocalRun` with the end-of-line catalogue |
| Expand.LocalT1 | expand.c:114-153 | `local_T1` is `LocalRun` with the T-junction catalogue |
| Expand.Recolor | expand.c:156-164 | every byte equal to `level` becomes `fill_color` and every other byte stays |
| Expand.FinalColoursPointwise | expand.c:203-209 | the recolouring chain maps each byte on its own, by the table 70→160, 5→150, 6→190, 1→200, 0→255, then 100→0 |
| Expand.FinalOrderMatters | expand.c:208-209 | the order of the chain matters: 100 ends as 0, whereas the last two steps in the other order would give 255 |
| Expand.MarkCopper | expand.c:176-179 | the marking loop sets pixel i + x to 1 exactly when bit 0x10 of the snapshot of block i is set and the pixel is not 0 |
| Expand.OrMarkedRefs | expand.c:220-228 | SET_OR_MASK adds to the masks exactly the references to the centre c = i + 1 + x: a bit is set afterwards iff it was before or it stands for c |
| Expand.MarkMasks | expand.c:220-228 | SET_OR_MASK for block i is the change of masks that turning its centre into copper makes, so or_mask stays the masks of a raster |
| Expand.FoldMasks | expand.c:220-228 | marking a run of blocks keeps the masks those of the raster with the marked centres made copper |
| Expand.FoldLowers | expand.c:220-228 | marking distinct centres that are not copper yet makes exactly one more pixel copper per mark |
| Expand.SetOrMask | expand.c:220-228 | the eight `|=` of the macro give `OrMarked`; bits are only ever added |
| Expand.OrInto | expand.c:221 | `or_mask[k] |= bit b` changes only entry k and only adds that bit |
| Expand.PassHitsMatch | expand.c:246-247 | the blocks a pattern pass marks come in increasing order and each matches the pass's catalogue on the snapshot |
| Expand.PassHitsComplete | expand.c:239-623 | every pass but `l_left` marks every block whose snapshot matches and whose predecessor's centre bit is clear |
| Expand.PassHitsLeft | expand.c:526-548 | `l_left` marks every matching block or the block before it, since it skips the block after each mark |
| Expand.MarkPass | expand.c:239-623 | a pattern pass ORs SET_OR_MASK for exactly the blocks `PassHits` names into or_mask and returns their number |
| Expand.PassExpands | expand.c:239-623 | a pass over a snapshot of the masks of t makes the centres it marks copper and leaves or_mask the masks of the new raster |
| Expand.PassLowers | expand.c:246-247 | with an up-to-date snapshot each mark makes a new pixel copper, so the count a pass returns is the number of new copper pixels |
| Expand.PassHitsFree | expand.c:246-247 | no centre a pass marks is copper before it: the skip test on the predecessor's bit is exact |
| Expand.NoExpandHits | expand.c:352-438 | the blocks `l_noexpand` marks, following its backward and forward jumps, lie in the scanned range, and each makes one more pixel copper (the measure that ends the scan) |
| Expand.NoExpandNextInRange | expand.c:372-378 | after a pocket the scan stays at block x + 1 or later, because the copper frame keeps the backward jump in range |
| Expand.CentreFree | expand.c:359-363 | a block whose centre bit is clear in the live mask of its predecessor has a centre that is not copper |
| Expand.NoExpand | expand.c:352-438 | `l_noexpand` ORs SET_OR_MASK for exactly the blocks `NoExpandHits` names, reading the live masks, and returns their number |
| Expand.NoExpandStep | expand.c:359-433 | one block of `l_noexpand` either makes a pixel copper or moves on by one with nothing changed |
| Expand.NoExpandExpands | expand.c:352-438 | `l_noexpand` keeps or_mask the masks of the raster with its marks made copper |
| Expand.BorderIsCopper | image.c:246-264 | `create_border` leaves the copper frame `bit_e` relies on |
| Expand.Snapshot | expand.c:669 | the memcpy copies the first `size` masks into mask_data |
| Expand.RunPass | expand.c:693-706 | a pattern pass and its snapshot keep or_mask and mask_data the masks of a raster that only gains copper, by exactly the count returned |
| Expand.RunNoExpand | expand.c:679-680 | an `l_noexpand` pass and its snapshot do the same |
| Expand.RunRound | expand.c:684-706 | the passes of one round, with `ret = l_up` overwriting the diagonal passes' counts as written, only gain copper, and at least `ret` new pixels |
| Expand.BitE | expand.c:651-726 | `bit_e` sizes its buffers to x * (y + 2), ends, and leaves or_mask the masks of a raster t that is the input with the marked pixels made copper, and mask_data its snapshot |
| Expand.MarkedIsCopper | expand.c:176-179 | reading bit 0x10 of the snapshot reads whether the left-hand neighbour of the centre is copper in the expanded raster |
| Expand.LocalRunThins | expand.c:188-196 | a `local_T1` or `local_end` call with fill 70 and border 90 thins the raster and lowers the count of pixels above 90 by its return value |
| Expand.ThinT1 | expand.c:186-193 | `local_T1` repeated until it finds nothing ends, thins the raster, and leaves a raster where another call would find nothing |
| Expand.ThinEnd | expand.c:194-201 | the same for `local_end` |
| Expand.ExpandCopper | expand.c:168-217 | `expand_copper` returns 0; the raster is `bit_e`'s expansion marked as 1, thinned until neither filter finds anything (a fixed point of both), then recoloured by the final chain |
| Expand.LocalRun | expand.c:59-112 | a filter pass over the first n blocks keeps the raster's size and writes at most one pixel per block |
| Expand.FinalColours | expand.c:203-209 | the final recolouring keeps the raster's size |
| Expand.MarkedCopper | expand.c:176-179 | the marking loop after `bit_e` keeps the raster's size |
| Expand.CopperMarked | expand.c:176-179 | the marking loop, on the expanded raster, keeps the raster's size |
| Expand.PassHits | expand.c:239-623 | the blocks a pass marks all lie within the band of blocks it scans |
| Expand.MarkStep | expand.c:239-623 | one block of a pass: the cursor moves forward, the masks still fold to those of every hit of the pass, and the count grows by exactly the hits passed over |
| Expand.SetOrMaskFront | expand.c:220-228 | the half of `SET_OR_MASK` on the row before and the centre row ORs in exactly those bits |
| Expand.SetOrMaskBack | expand.c:220-228 | the half of `SET_OR_MASK` on the row after ORs in exactly those bits |
| Trace.MaskTest | trace.c:140-152 | `mask_test` returns the number of set bits of the mask (`Popcount`), between 0 and 8 |
| Trace.PopcountClear | trace.c:235 | clearing a set bit of a junction's mask removes exactly one direction |
| Trace.PopcountZero | trace.c:223-224 | a mask allows no direction exactly when it is 0 |
| Trace.LowestFromSpec | trace.c:95-96 | the search from bit j upwards finds the lowest set bit at or above j, or 8 when there is none |
| Trace.BitToData | trace.c:90-137 | `bit_2_data` returns the lowest set bit of the mask with that bit's step, and for 0 returns 0 with the step unchanged |
| Trace.NeighbourOffset | trace.c:98-133 | the step of bit k is a unit step to the neighbour that bit k of get_mask's block stands for |
| Trace.DirMaskFatal | trace.c:178-207 | the direction table is fatal exactly for a `dir` that is not a single bit |
| Trace.DirMaskRotation | trace.c:178-203 | after a step in direction k every direction is allowed except k + 3, k + 4 and k + 5 (mod 8): the table is one mask turned round |
| Trace.DirMaskMeaning | trace.c:178-203 | in pixels: after a step from p the walk may go to any neighbour that is neither p nor one of p's four nearest neighbours |
| Trace.DarkIsInterior | trace.c:307-311 | on a framed raster a neighbour whose pixel is dark at border 128 lies inside the frame, so walks stay in the raster |
| Trace.MarkShrinks | trace.c:173 | marking a pixel that is neither junction nor traced shrinks the set of untraced pixels by one, the measure of the walk |
| Trace.NextPixelOn | trace.c:157-211 | `next_pixel` on values: a junction target gives -1 and a traced one -2, both with nothing changed; any other target is marked 130 and the result is its block mask at border 120 cut by the direction table, or fatal for a bad `dir` |
| Trace.NextPixel | trace.c:157-212 | the method changes the raster exactly as `NextPixelOn` says and extends the head polyline to (2nx, 2ny) exactly when it marks |
| Trace.RetracedTurn | trace.c:266-272 | a -2 kept in the unsigned char `dir` is 0xfe, which `bit_2_data` turns to direction 2 with step (1, -1) |
| Trace.TurnUnit | trace.c:266-272 | the turn keeps a unit step, and the step of a non-zero direction is the step of the lowest bit of the probe's result |
| Trace.WalkStep | trace.c:264-282 | one pass of the walk marks one more pixel (the measure drops) and turns to the lowest allowed direction; it stops at a junction, where the raster holds 30, and changes only the head polyline |
| Trace.WalkOn | trace.c:264-282 | the walk ends; it only marks pixels, changes only the head polyline, and when it ends at a junction the head polyline is extended to that junction |
| Trace.UsedBranches | trace.c:232-235 | taking a branch clears exactly the lowest set bit of the junction's mask, and keeps the junction's branches inside the frame |
| Trace.MPoints.New | trace.c:285-297 | `m_point_new` puts a junction with mask = initmask at the list head |
| Trace.MPoints.Take | trace.c:232-235 | the branch `bit_2_data` picks is the lowest bit, with its step, and that bit is cleared |
| Trace.MPoints.Free | trace.c:366-371 | the list is freed from its head and ends empty |
| Trace.MeetJunction | trace.c:242-256 | when the first probe meets a neighbouring junction, the line from the other side (if any) gets this junction in front and the new polyline is dropped; otherwise the new polyline runs to the midpoint |
| Trace.TraceBranch | trace.c:241-282 | the first probe and the walk: a neighbouring junction as `MeetJunction` says, a traced neighbour drops the new polyline, any other starts the walk; the store stays well formed |
| Trace.StartBranch | trace.c:229-282 | the polyline started at the doubled junction and the branch traced; a polyline left behind is new, at the head, and ends at the junction |
| Trace.TraceMPoint | trace.c:215-283 | `trace_m_point` returns 0 and changes nothing exactly when the junction's mask is 0; otherwise it clears the lowest branch and traces it |
| Trace.JunctionsIn | trace.c:307-321 | every junction the scan records lies inside the frame |
| Trace.ScanJunctionPixel | trace.c:309-320 | one pixel of the junction scan: a 0 pixel with more than two branches at border 128 is marked 30 and its m_point pushed |
| Trace.ScanJunctionRow | trace.c:308-321 | one row of the scan pushes exactly the row's junctions, in scan order |
| Trace.ScanJunctions | trace.c:307-321 | the scan marks exactly the junctions of the raster as it was before the scan, and pushes their m_points at the list head |
| Trace.TraceAllBranches | trace.c:325 | `while (trace_m_point (…));` traces the junction's branches until none is left (its mask is then 0) or a walk fails |
| Trace.TraceJunctions | trace.c:323-325 | every branch of every junction traced from the list head; with no failure every mask ends 0 |
| Trace.LShapeMasks | trace.c:403-431 | the masks artefact acts on are exactly the L masks of the four corners, each with or without its extra bit |
| Trace.LBits | trace.c:403-431 | the bits of the two L masks, as neighbours of the pixel |
| Trace.ArtefactIsL | trace.c:399-431 | artefact acts exactly on the L-shaped masks, and the m-line it deletes runs between the corner's neighbour in the column and the one in the row |
| Trace.ArtefactAt | trace.c:399-431 | one pixel's visit leaves the store as it was when the pixel calls for no cut, and keeps the store well formed |
| Trace.ArtefactRows | trace.c:397-432 | the visits, row by row from row 2, each row from column 2, keep the store well formed |
| Trace.ArtefactQuiet | trace.c:397-432 | artefact changes nothing on a raster with no L-shaped mask inside the frame |
| Trace.ArtefactPixel | trace.c:399-431 | one pixel of `artefact`: the store becomes `ArtefactAt`, the m-line its mask at border 131 calls for deleted by `polyline_delete_m_line` |
| Trace.Artefact | trace.c:389-434 | `artefact` leaves the store equal to the row-major fold `ArtefactRows` of those deletions, and only reads the raster |
| Trace.TraceLoop | trace.c:347-348 | a two-way pixel is marked as a junction, given an m_point, and one branch traced; the untraced pixels shrink |
| Trace.TwoWayPixel | trace.c:340-350 | a pixel of the last scan starts a loop trace exactly when it is two-way; otherwise nothing changes |
| Trace.TwoWayRow | trace.c:339-351 | a row with no two-way pixel changes nothing and is then clear |
| Trace.TwoWayScan | trace.c:338-351 | a pass that finds nothing leaves every row clear of two-way pixels; one that finds something shrinks the untraced pixels |
| Trace.TwoWayPasses | trace.c:335-352 | `while (flag)` ends, and unless a walk fails no two-way pixel is left |
| Trace.Trace | trace.c:299-375 | `trace` only marks pixels, marks every junction pixel of the input, keeps the store well formed, and, unless a walk fails, leaves no two-way pixel and frees the junction list |
| Trace.Popcount | trace.c:141-152 | a block mask allows at most eight directions |
| Trace.LowestBit | trace.c:91-137 | the lowest set bit of a non-zero mask is a set bit |
| Trace.Block | trace.c:64-85 | the 3x3 block handed to `get_mask` lies inside the raster |
| Trace.ProbeMask | trace.c:158-212 | `next_pixel` allows direction k exactly when the table does and the neighbour it stands for is a track |
| Trace.ProbeStep | trace.c:158-212 | one probe marks at most its target, keeps the frame, reports a junction only where one is, and when the walk goes on frees one pixel fewer |
| Trace.Used | trace.c:216-240 | taking a junction's lowest branch leaves one branch fewer and its place unchanged |
| Trace.MPoints.constructor | trace.c:286-297 | the junction list starts empty |
| Trace.PushJunction | trace.c:307-318 | scanning one pixel adds its junction, if any, to the row's list |
| Trace.Corner | trace.c:403-429 | the corner of each L mask is a diagonal direction of the block |
| Trace.LShapeIsMask | trace.c:403-429 | an L is one of the two masks `artefact` tests for that corner |
| Trace.ArtefactRow | trace.c:398-431 | the visits of one row keep the store well formed |
| Trace.ArtefactRowQuiet | trace.c:398-431 | a row with no pixel calling for an m-line leaves the polylines as they were |
| Optim.StatsCounts | optim.c:149-157 | `plus` counts the interior points on the positive side of the chord and `minus` the others |
| Optim.StatsAlternating | optim.c:159-161 | the balance flag survives exactly when every prefix of the interior has side counts differing by at most one |
| Optim.StatsFar | optim.c:166-171 | for a chord of positive length, pmax is the last interior point whose absolute deviation is the largest |
| Optim.StatsDegenerate | optim.c:151-171 | for a chord of length zero every deviation is NaN: no point counts as positive and none becomes pmax |
| Optim.Len2 | optim.c:151 | the squared chord length is never negative and is 0 exactly when the two ends coincide |
| Optim.StatsTo | optim.c:149-178 | after the interior points up to j, plus and minus together count them, and pmax, when set, is one of them |
| Optim.TreeOf | optim.c:124-246 | the node over s..e has those ends and every split in it is well formed |
| Optim.TreeLeaf | optim.c:138-143 | a node over two consecutive points is a leaf: one component, balanced, undecided, no children |
| Optim.TreeCounts | optim.c:145-178 | a node with interior points counts them as components, with plus and minus as above |
| Optim.TreeDiagonal | optim.c:184-205 | a node that ends diagonal was balanced at every prefix and has points on both sides of its chord |
| Optim.TreeSplit | optim.c:232-245 | a node is split exactly when its chord was not accepted and has positive length; the split point is the last interior point of largest deviation, and the children are the nodes over start..pmax and pmax..end one level deeper, both strictly shorter |
| Optim.TreeDirect | optim.c:213-230 | a node is accepted (`direct = 1`) only when diagonal, clear of copper and of every hole, and an accepted node is never split |
| Optim.Survey | optim.c:149-178 | the loop over the interior points yields `StatsTo` and one component per interior point |
| Optim.Build | optim.c:124-246 | `polyline_tree0` builds exactly `TreeOf`: the node, and unless accepted or unsplittable, the two subtrees |
| Optim.ExcludeLinks | optim.c:372-387 | after `exclude_path_nodes` the end follows the start directly and every other live point keeps its successor |
| Optim.Between | optim.c:378-385 | exactly the indices strictly between the node's ends |
| Optim.ExcludePathNodes | optim.c:372-387 | only points strictly inside the node join the spliced-out set, and nothing already spliced out comes back |
| Optim.Live | optim.c:378-385 | the list after splicing is no longer than the polyline |
| Optim.LiveEnds | optim.c:378-379 | splicing out interior points keeps the polyline's first point and its end |
| Optim.RetaggedKeeps | optim.c:101-120 | retagging a tree keeps its splits, its nodes' ends and its live ends |
| Optim.PersistsActive | optim.c:353-369 | cutting subtrees and vetoing nodes never opens a candidate |
| Optim.HoleToLine | optim.c:101-120 | `holeToLine` changes only `direct`, and only to -1 |
| Optim.HolePassVetoes | optim.c:101-120 | `holeToLine` only ever sets `direct` to -1 and never changes a tree's shape |
| Optim.CheckLine | optim.c:251-328 | `check_line`: a vetoed node is left alone; a chord across copper is vetoed; otherwise `direct` only becomes 1, and the count only rises, to the node's components, when the node is marked |
| Optim.CheckPassFacts | optim.c:265-327 | a check pass never lifts a veto and never lowers the count, and when it raises the count a marked node remains |
| Optim.CheckLineStable | optim.c:265-327 | check_line decides a node it already decided the same way, reaching the same count |
| Optim.CheckPassStable | optim.c:433-439 | a second check pass over a checked tree reaches the same count: the check is a fixed point |
| Optim.Checked | optim.c:437-438 | the tree after the check pass, counted from 0, keeps its shape |
| Optim.ExcludeTree | optim.c:353-369 | `exclude_tree` drops both subtrees and changes nothing else in the node |
| Optim.ExcludeDirect | optim.c:397-405 | `exclude_direct` splices out the interior of a marked node, drops its subtrees and vetoes it; any other node is left alone |
| Optim.ExcludePassSound | optim.c:397-405 | the exclusion pass keeps the tree well split, keeps every node's ends live, splices out only points inside the tree, and leaves no node marked |
| Optim.ExcludePassShrinks | optim.c:454 | a pass over a tree with a marked node closes at least one candidate node, the measure of the round loop |
| Optim.ExcludePassIdle | optim.c:397-405 | on a tree with no marked node the pass changes nothing |
| Optim.ExcludePassPersists | optim.c:397-405 | the pass only cuts subtrees and vetoes, so it never opens a candidate |
| Optim.ExcludePassIdempotent | optim.c:397-405 | a second exclusion pass changes nothing |
| Optim.ExcludeSound | optim.c:422-423 | the exclusion pass keeps a polyline and its tree in good order |
| Optim.TotalActiveBelow | optim.c:433-459 | closing candidates tree by tree lowers the total, strictly when one tree loses one |
| Optim.Optimiser.constructor | optim.c:339-348 | every polyline whole, no tree yet, and every optimized_count 0 |
| Optim.Optimiser.BuildTrees | optim.c:330-349 | `polyline_tree` gives every polyline the tree `TreeOf` over its first to its last point |
| Optim.Optimiser.ExcludeAll | optim.c:422-423 | the diagonal pass applies `ExcludePass` to every tree and leaves none marked |
| Optim.Optimiser.ExcludeOne | optim.c:454 | the pass over polyline k's tree applies `ExcludePass` to it alone |
| Optim.Optimiser.HoleOne | optim.c:430-431 | the hole pass over polyline k's tree applies `HolePass` to it alone |
| Optim.Optimiser.HoleAll | optim.c:430-431 | the hole pass applies `HolePass` to every tree and only retags |
| Optim.Optimiser.CheckAll | optim.c:437-438 | the check pass applies `CheckPass` to every tree with its own count |
| Optim.Optimiser.CheckOne | optim.c:437-438 | the check pass over polyline k's tree: the count never drops, no candidate opens, and a raised count leaves a marked node |
| Optim.Optimiser.Checks | optim.c:437-438 | the counts and trees the check pass gives every polyline |
| Optim.Optimiser.ResetCounts | optim.c:455-456 | every optimized_count becomes 0 and nothing else changes |
| Optim.Optimiser.Run | optim.c:407-460 | `optim`: nothing below level 0; trees and the diagonal pass below level 2; above that, rounds until none is picked, ending with every count 0 and no tree whose check would raise a count |
| Optim.Optimiser.Round | optim.c:433-459 | one round checks every tree, picks as ps_max the first polyline with the strictly greatest positive count, splices that tree's marked chords and resets the counts; with no positive count nothing but the check has changed; a pick closes at least one candidate |
| Optim.Optimiser.CheckAndPick | optim.c:437-449 | the check pass and the choice of ps_max, stated over the counts the checks give |
| Optim.Optimiser.Splice | optim.c:454-456 | the marked chords of ps_max's tree spliced out and every count reset; the total of candidates drops |
| Optim.PickMax | optim.c:440-449 | the first index with the strictly greatest positive count, or none when no count is positive |
| Multigraph.NoneTaken | vectorize.c:296-303 | before any dump no polyline is marked used |
| Multigraph.NodeAt | vectorize.c:44-52 | `search_mg` finds a node exactly when one lies at p, and then the first in list order (the newest) |
| Multigraph.NodeAtUnique | vectorize.c:44-52 | with one node per point, the node found is the only one at p |
| Multigraph.NodeAtAppend | vectorize.c:270-282 | a node created at another point does not change what `search_mg` finds |
| Multigraph.AddNode | vectorize.c:270-282 | `create_graph_node` appends a zeroed node at p and changes no other node |
| Multigraph.Lookup | vectorize.c:306-313 | search-or-create returns a node at p, the existing one unchanged when there is one, else a new one at the end |
| Multigraph.Counted | vectorize.c:323-325 | one more edge end at each end node, two at one node for a closed loop |
| Multigraph.Connect | vectorize.c:315-338 | storing polyline j between nodes s and e: counts as `Counted`, and failure (the `exit(1)`) exactly when a node would get more than four ends |
| Multigraph.UnusedGrows | vectorize.c:303-338 | counting more polylines never lowers the number of ends at a point |
| Multigraph.SumParity | vectorize.c:323-325 | a sum of counts and its number of odd terms have the same parity |
| Multigraph.LookupNet | vectorize.c:306-313 | search-or-create keeps every polyline so far wired between its end nodes, one node per point |
| Multigraph.ConnectCounts | vectorize.c:315-325 | after connecting polyline n the counts are exactly its ends among the first n+1 polylines |
| Multigraph.ConnectSlots | vectorize.c:315-321 | the polyline goes into slot count[s] of s and slot count[e] of e, each with the other node as neighbour |
| Multigraph.WireNet | vectorize.c:303-338 | one loop body keeps every polyline wired between its end nodes, the counts right and the nodes unique |
| Multigraph.WireSum | vectorize.c:323-325 | one loop body adds exactly two to the sum of the counts |
| Multigraph.Handshake | vectorize.c:323-325 | counts adding up to twice the number of polylines have an even number of odd terms |
| Multigraph.WiredFits | vectorize.c:327-338 | after each successful body every point is an end of at most four polylines so far |
| Multigraph.WireFits | vectorize.c:327-338 | the body for polyline n fails exactly when some point becomes an end of more than four polylines |
| Multigraph.BuildFrom | vectorize.c:303-339 | the rest of the loop keeps the polylines and marks, with at most four edges per node |
| Multigraph.Build | vectorize.c:289-341 | `create_graph` over ended polylines keeps them and marks none used |
| Multigraph.BuildFromFits | vectorize.c:303-339 | the rest of the loop succeeds exactly when no point is an end of more than four polylines |
| Multigraph.WireStops | vectorize.c:327-338 | a polyline that does not fit shows that not all of them fit |
| Multigraph.BuildNet | vectorize.c:289-341 | `create_graph` succeeds exactly when no point is an end of more than four polylines; then every polyline is wired between its end nodes, the counts are its ends and add up to twice the number of polylines, and nothing is used, visited or paired |
| Multigraph.Put | vectorize.c:316-322 | a slot store changes exactly that slot of that node |
| Multigraph.Wire | vectorize.c:306-339 | one loop body, when it does not stop on a fifth edge, keeps the polylines and their marks and leaves every node with at most four edges |
| Rapids.RemainingMark | vectorize.c:144-152 | marking an unvisited odd node leaves one odd node fewer to visit |
| Rapids.RemainingAll | vectorize.c:103-106 | before the chain starts every odd node remains |
| Rapids.RemainingNone | vectorize.c:154-161 | once every odd node is visited none remains, so the final sweep passes |
| Rapids.FirstOdd | vectorize.c:106-111 | the skip loop stops at the first odd node in list order (newest first), and finds none exactly when every node is even |
| Rapids.Nearest | vectorize.c:112-128 | the inner loop finds a candidate (odd, not the current node, not visited) exactly when one exists; it is the nearest, and among equally near ones the first in list order, since only a strictly smaller distance replaces the pick |
| Rapids.Advance | vectorize.c:146-152 | a step puts the pair on the current list with its length, marks the current node and flips the alternation |
| Rapids.Close | vectorize.c:129-144 | the end of the chain puts the last node and the closing node on L1 without adding a length, and marks the last node |
| Rapids.Chain | vectorize.c:104-153 | the chain keeps both lists' nodes in range; it fails exactly where the C program reports "internal error (alternate)" |
| Rapids.Link | vectorize.c:166-171 | setting the rapids from the last pair of a list to the first keeps one rapid slot per node |
| Rapids.PairWith | vectorize.c:104-186 | chain, sweep and linking change only the rapids and visit marks of the graph |
| Rapids.DrakeHougardy | vectorize.c:77-195 | drake_hougardy, with the closing pair made with the chain's first node and an empty pairing when no node is odd, changes only rapids and visit marks |
| Rapids.DrakeHougardyAsWritten | vectorize.c:77-195 | drake_hougardy as written, closing the chain with the list head and failing when no node is odd; when it succeeds it changes only rapids and visit marks |
| Rapids.AddRapids | vectorize.c:203-230 | `add_rapids` succeeds with the pairing of `DrakeHougardy`, changing only rapids and visit marks and leaving no odd node without a rapid; it fails after a successful pairing only when some odd node lacks a rapid |
| Rapids.CheckRapids | vectorize.c:215-229 | the check of add_rapids passes a graph through exactly when no odd node lacks a rapid |
| Rapids.ChainStart | vectorize.c:103-111 | at the first odd node the chain's invariant holds |
| Rapids.StepParity | vectorize.c:146-152 | a step keeps the visited odd nodes even in number when the alternation is back on L0 |
| Rapids.StepL0 | vectorize.c:146-152 | a step keeps L0 holding exactly the visited odd nodes plus the current one, each once |
| Rapids.StepL1 | vectorize.c:146-152 | a step keeps L1 holding the visited odd nodes but the chain's first, each once |
| Rapids.ChainStep | vectorize.c:146-152 | a step to the nearest candidate keeps the chain's invariant |
| Rapids.CloseMarks | vectorize.c:129-144 | when the current node has no candidate, every other odd node is visited |
| Rapids.ChainClose | vectorize.c:129-144 | with an even number of odd nodes, a chain without candidate ends on L1, and closing it with the chain's first node leaves both lists covering the odd nodes |
| Rapids.ShapedAdvance | vectorize.c:146-152 | a step keeps both lists' nodes in range and their lengths even |
| Rapids.ChainCovers | vectorize.c:104-153 | from the invariant the chain succeeds and leaves every odd node visited and once in each list |
| Rapids.LinkMate | vectorize.c:166-171 | linking distinct pairs points each member at its mate and leaves every other node alone |
| Rapids.CoversNoDup | vectorize.c:104-153 | a list covering the odd nodes holds each once and no even node |
| Rapids.MateAt | vectorize.c:166-171 | a node linked to its mate in a covering list is matched |
| Rapids.LinkMatched | vectorize.c:163-186 | linking a list covering the odd nodes, from no rapids, matches every odd node with another by mutual rapids and gives no even node one |
| Rapids.DrakeHougardyMatches | vectorize.c:77-195 | with an even number of odd nodes the pairing succeeds and matches the odd nodes in pairs |
| Rapids.UnpairedNone | vectorize.c:215-224 | matched nodes leave the check nothing to count |
| Rapids.AddRapidsMatches | vectorize.c:203-230 | `add_rapids` passes its check on every graph `create_graph` can build, with the odd nodes matched |
| RapidsExamples.LoopsNoOddNode | vectorize.c:104-111 | on two closed loops (no odd node) the pairing as written finds no start, while the intended one leaves the graph unpaired and matched |
| RapidsExamples.MixedClosesWithHead | vectorize.c:129-137 | on a graph where the chain's first node is not the list head, the pairing as written gives the even head a rapid and leaves an odd node without one, so add_rapids fails |
| RapidsExamples.MixedClosesWithFirst | vectorize.c:129-137 | closing with the chain's first node pairs the two odd nodes of that graph |
| Route.UnusedTake | vectorize.c:393-405 | marking an unused polyline used takes exactly its own ends off the count at each point |
| Route.UnusedSwap | vectorize.c:395-396 | reversing a polyline keeps the count at every point |
| Route.UnusedWitness | vectorize.c:389-411 | a positive count at a point has an unused polyline ending there |
| Route.FreeSlot | vectorize.c:389-394 | the slot loop of `euler` finds the first slot from t on holding an unused polyline, and finds none exactly when every stored polyline is used |
| Route.Leaving | vectorize.c:395-396 | a polyline whose end is at the node is reversed to start there, keeping its ends; any other is left as it is |
| Route.Take | vectorize.c:393-409 | leaving node k over polyline j: it is turned to start at k and marked used, its new end is at the node reached, and k and that node each lose one end (k two for a closed loop); nothing else changes |
| Route.EulerStep | vectorize.c:380-424 | `euler` leaves k over its first unused polyline, else over its rapid (cleared at both ends); a step keeps the routing invariant and strictly lowers the load |
| Route.UnsetMark | vectorize.c:403 | setting an unset flag leaves one fewer |
| Route.LinkedClear | vectorize.c:416-418 | clearing a rapid leaves one fewer |
| Route.TakeCounts | vectorize.c:401-405 | taking a polyline keeps each count equal to the unused ends at its node |
| Route.TakeHeld | vectorize.c:393-409 | taking a polyline keeps every other unused polyline stored at both its end nodes |
| Route.TakeEnds | vectorize.c:393-409 | taking a polyline keeps every stored polyline and every polyline end at a node |
| Route.TakeRouted | vectorize.c:393-409 | a step over a polyline keeps the routing invariant |
| Route.ClearSymmetric | vectorize.c:415-418 | clearing a rapid at both ends keeps the rapids mutual |
| Route.FreeWhenCounted | vectorize.c:389-394 | a node with a positive count has a free slot |
| Route.NoneFreeWhenZero | vectorize.c:389-394 | a node with count 0 has no free slot |
| Route.StepStuck | vectorize.c:380-424 | `euler` returns NULL exactly when the node has no unused end and no rapid |
| Route.StepDeg | vectorize.c:380-424 | a step from k to m takes one off the degree of each (two when m is k) |
| Route.DegPair | vectorize.c:380-424 | lowering the degrees of c and m by one moves the odd end of the pair from c to m |
| Route.StepPair | vectorize.c:380-424 | a step moves the odd end of the pair to the node reached |
| Route.StuckPair | vectorize.c:448-459 | a walk only gets stuck at the other odd node |
| Route.Trail | vectorize.c:448-461 | the inner loop, `euler` again and again until NULL, keeps the invariant and takes one unit of load per step |
| Route.TrailUnfold2 | vectorize.c:448-461 | a trail is its first step followed by the trail from the node reached |
| Route.TrailPos | vectorize.c:448-461 | a trail moves no node and marks none used |
| Route.TrailNodes | vectorize.c:448-461 | every step of a trail stays on the graph |
| Route.Spliced | vectorize.c:447-458 | splicing a trail into the walk lengthens it by the trail's length |
| Route.WithinSplice | vectorize.c:447-458 | splicing keeps every step on the graph |
| Route.TrailSteps | vectorize.c:443-461 | a trail from a node with something left takes at least one step |
| Route.ScanSplice | vectorize.c:443-458 | splicing the trail from step i's node lowers the load and keeps the walk on the graph |
| Route.Scan | vectorize.c:441-464 | the outer loop keeps the invariant and never raises the load |
| Route.WalksCons | vectorize.c:441-464 | a step from k followed by a walk from where it leads is a walk from k |
| Route.TrailWalk | vectorize.c:448-461 | when every degree is even but those of c and e, the trail from c ends at e (at c when c is e) and leaves every degree even |
| Route.EvenPair | vectorize.c:380-424 | the pair (c, c) is exactly every degree even |
| Route.BelowTrans | vectorize.c:441-464 | degrees that only went down twice only went down |
| Route.StepBelow | vectorize.c:380-424 | a step only lowers degrees |
| Route.TrailBelow | vectorize.c:448-461 | a trail only lowers degrees |
| Route.DegNonNegative | vectorize.c:401-405 | degrees and counts are never negative while routing |
| Route.ScanPos | vectorize.c:441-464 | the scan moves no node, marks none used and only lengthens the walk |
| Route.ScanWithin | vectorize.c:441-464 | every step of the scanned walk stays on the graph |
| Route.ScanBelow | vectorize.c:441-464 | the scan only lowers degrees |
| Route.SpliceChained | vectorize.c:447-458 | splicing a chained sub-walk that leaves from, and unless last returns to, the node of step i keeps the walk chained with the same first step |
| Route.SpliceScanning | vectorize.c:447-458 | splicing the trail from step i keeps the scan's invariant, restarting at the first step |
| Route.ScanDone | vectorize.c:441-464 | a scan that has passed every step has swept the walk |
| Route.ScanSkip | vectorize.c:443 | a step whose node has nothing left is passed over keeping the invariant |
| Route.ScanWalk | vectorize.c:441-464 | the scan restarting at the first step ends with a chained walk to e that leaves nothing at any node it reaches, and every degree even |
| Route.MarkAll | vectorize.c:473-484 | the last loop marks used exactly the nodes a step reaches, and keeps the rest |
| Route.RoutedUsed | vectorize.c:473-477 | marking nodes used keeps the routing invariant and the load |
| Route.Dump | vectorize.c:426-492 | `dump_graph_component` keeps the invariant, the walk on the graph and lowers the load when it walks; with no step it leaves the graph as it was as written, and only marks the start used as intended |
| Route.ClearedIdle | vectorize.c:465-471 | a walk whose nodes have nothing left passes the count check |
| Route.MarkSettled | vectorize.c:473-477 | marking the nodes of a cleared walk keeps every used node settled |
| Route.VisitedCleared | vectorize.c:465-471 | a node a cleared walk reaches has degree 0 |
| Route.EvenUsed | vectorize.c:473-477 | marking nodes used changes no degree |
| Route.DumpSettles | vectorize.c:426-492 | the intended dump from s, whose odd partner is e, passes its check, walks from s to e, leaves every degree even and every used node settled, and marks what it reaches |
| Route.WalkSettles | vectorize.c:439-492 | the same, for a start with something left |
| Route.PathDump | vectorize.c:343-370 | `path_dump` counts every point, and stops the program exactly when the last point is not the recorded end |
| Route.PathDumpPasses | vectorize.c:343-370 | no polyline of the graph makes `path_dump` stop the program |
| Route.Written | vectorize.c:473-484 | one output entry per step of the walk |
| Route.NextPoint | vectorize.c:235-267 | `next_point` finds a node exactly when one is unused; the node is unused, and no unused node has a smaller score or an equal one later in list order (the last of equal scores wins, `<=`) |
| Route.RoutedRapid | vectorize.c:523-526 | mutual rapids keep the routing invariant |
| Route.Detach | vectorize.c:523-526 | clearing the start's rapid at both ends keeps the invariant, moves nothing, only lowers degrees and leaves the start without rapid |
| Route.DetachPair | vectorize.c:523-526 | from even degrees, clearing k's rapid leaves k and its partner as the odd pair |
| Route.PairSwap | vectorize.c:523-526 | the odd pair has no direction |
| Route.SettledBelow | vectorize.c:521-531 | lower degrees keep every used node settled |
| Route.Round | vectorize.c:521-531 | one turn: the loop ends exactly when every node is used; otherwise the turn keeps the invariant |
| Route.RoundProgress | vectorize.c:521-531 | the intended turn lowers the load or marks one more node used |
| Route.Finish | vectorize.c:521-531 | the intended loop keeps the invariant and moves no node |
| Route.Rounds | vectorize.c:521-531 | the first n turns as written keep the invariant and move no node |
| Route.StallRepeats | vectorize.c:521-531 | a turn that leaves the graph as it was repeats for ever: the loop as written never ends |
| Route.StalledForever | vectorize.c:521-531 | when `next_point` picks a node with nothing left, no number of turns as written ends the loop |
| Route.StalledRoundRepeats | vectorize.c:439-484 | a dump as written from a node with nothing left neither walks nor marks it, so the turn changes nothing |
| Route.RoundKeeps | vectorize.c:521-531 | the intended turn never stops the program and keeps the invariant |
| Route.UnusedPositive | vectorize.c:389-394 | an unused polyline puts an unused end at its start node |
| Route.AllTaken | vectorize.c:389-394 | when no node has anything left, every polyline is used |
| Route.FinishRoutesAll | vectorize.c:521-531 | the intended loop ends, with every node used, every polyline cut and every rapid travelled |
| Route.FinishDone | vectorize.c:521 | the loop ends at once when no node is unused |
| Route.FinishNext | vectorize.c:521-531 | after a turn the loop goes on from the graph it leaves, its output following the turn's |
| Route.AllCleared | vectorize.c:521-531 | with every node used, the invariant leaves no rapid and no unused polyline |
| Route.Circle | vectorize.c:513-518 | the body of the circle loop keeps the invariant and moves no node |
| Route.Circles | vectorize.c:511-518 | the circle loop over the node list keeps the invariant and moves no node |
| Route.CirclesKeep | vectorize.c:511-518 | the intended circle loop never stops the program and keeps the routing invariant |
| Route.CircleKeeps | vectorize.c:513-518 | the same for one node |
| Route.PairedRouting | vectorize.c:500-501 | the graph `create_graph` built, with its odd nodes matched, is ready for routing |
| Route.MatchedEven | vectorize.c:500-501 | matching rapids are mutual and make every degree even |
| Route.RapidsRouting | vectorize.c:500-501 | whenever `add_rapids` succeeds on that graph, the result is ready for routing |
| Route.Prepare | vectorize.c:500-501 | `create_graph` and `add_rapids` give a graph ready for routing |
| Route.OptimizedDump | vectorize.c:494-537 | the intended optimized_dump keeps the invariant and all polylines |
| Route.PrepareFits | vectorize.c:500-501 | `create_graph` and `add_rapids` succeed exactly when no point is an end of more than four polylines |
| Route.BuiltPairs | vectorize.c:500-501 | `add_rapids` always succeeds on what `create_graph` builds, since by the handshake its odd nodes are even in number |
| Route.OptimizedDumpRoutesAll | vectorize.c:494-537 | the intended optimized_dump succeeds exactly when no point is an end of more than four polylines, and then every node is used, every polyline cut and every rapid travelled |
| Route.PreparedRoutesAll | vectorize.c:511-531 | once the graph is ready, both intended loops go through and use everything |
| Route.OptimizedDumpIs | vectorize.c:494-537 | optimized_dump is `create_graph`, `add_rapids`, then its two loops, its output the two loops' output |
| Router.Router.constructor | vectorize.c:296 | an image with the given polylines, no node yet and nothing written |
| Router.Router.SearchMg | vectorize.c:44-52 | the walk of the node list from its head finds exactly `NodeAt`: the newest node at p, or none |
| Router.Router.CreateGraphNode | vectorize.c:270-282 | a zeroed node at p goes to the head of the list and gets the next index |
| Router.Router.Link | vectorize.c:316-339 | the body's stores and count increments succeed exactly when `Connect` does, leaving its graph; otherwise the program stops |
| Router.Router.AddPolyline | vectorize.c:306-339 | one loop body succeeds exactly when `Wire` does, leaving its graph |
| Router.Router.CreateGraph | vectorize.c:289-341 | with nodes already present the program stops; otherwise the loop leaves `BuildFrom`'s graph, and on a fresh image it succeeds exactly when no point is an end of more than four polylines |
| Router.Router.Euler | vectorize.c:380-424 | `euler` takes a step exactly when `EulerStep` does, leaving its graph and step; without a step nothing changes |
| Router.Router.TakePolyline | vectorize.c:393-409 | leaving node k over unused polyline j leaves exactly `Take`'s graph and node |
| Router.Router.WalkFrom | vectorize.c:448-461 | the inner loop leaves exactly the graph and steps of `Trail` |
| Router.Router.ScanWalk | vectorize.c:441-464 | the outer loop leaves exactly the graph and walk of `Scan` |
| Router.Router.Check | vectorize.c:465-471 | the check passes exactly when no node the walk reaches has an unused end left |
| Router.Router.MarkWalk | vectorize.c:473-484 | the last loop marks the nodes the walk reaches and writes `Written` for it |
| Router.Router.DumpGraphComponent | vectorize.c:426-492 | `dump_graph_component` succeeds exactly when `Dump` does, leaving its graph and walk and writing the rapid to the start followed by the walk |
| Router.Router.DumpSteps | vectorize.c:441-484 | after the first step, the scan, check and marking agree with `Dump` |
| Router.Router.CheckAndMark | vectorize.c:465-484 | the check passes exactly on an idle walk, and then the marking and writing follow |
| Router.Router.NextPointScan | vectorize.c:235-267 | the walk of the node list finds exactly `NextPoint` over all nodes |
| Router.Router.ClearRapid | vectorize.c:523-526 | clearing the start's rapid leaves exactly `Detach`'s graph |
| Router.Router.CircleAt | vectorize.c:513-518 | the circle test and dump for one node agree with `Circle` |
| Router.Router.DumpCircles | vectorize.c:511-518 | the first loop of optimized_dump agrees with `Circles` over the whole list, its output appended |
| Router.Router.Turn | vectorize.c:521-531 | one intended turn: no node found exactly when `Round` finishes, a stop exactly when it stops, otherwise its graph and output |
| Router.Router.DumpRest | vectorize.c:521-531 | the intended second loop agrees with `Finish`, its output appended |
| Router.Router.RestTurn | vectorize.c:521-531 | one turn keeps what remains of `Finish` and lowers the load or marks one more node used |
| Router.Router.OptimizedDump | vectorize.c:494-537 | the intended optimized_dump on a fresh image succeeds exactly when `Route.OptimizedDump` does, with the same graph and output |
| Router.Router.BuildGraph | vectorize.c:289-341 | `create_graph` on a fresh image agrees with `Build` |
| Router.Router.PrepareGraph | vectorize.c:500-501 | `create_graph` then `add_rapids` agree with `Prepare` |
| Router.PrepareVia | vectorize.c:500-501 | `Prepare` is `add_rapids` on what `create_graph` built |
| Router.OptimizedDumpStops | vectorize.c:511-518 | optimized_dump stops the program when the circle loop does |
| Router.OptimizedDumpSplit | vectorize.c:520-531 | after the circle loop optimized_dump is the second loop |
| Router.TrailEnd | vectorize.c:453-458 | the inner loop ends where `euler` returns NULL, having walked the trail |
| Router.TrailAfter | vectorize.c:453-460 | one step of the inner loop extends the trail walked so far |
| Router.DumpEmpty | vectorize.c:439-484 | when `euler` finds no first step the dump writes no walk, and marks the start only as intended |
| Router.DumpVia | vectorize.c:441-484 | after the first step and the scan, the check decides and the walk is marked |
| Router.WrittenUsed | vectorize.c:473-484 | marking nodes used changes nothing the last loop writes |
| Router.CirclesStep | vectorize.c:512-518 | the circle loop, one node at a time |
| Router.RoundIs | vectorize.c:521-531 | an intended turn is `next_point`, `Detach` and `Dump` |
| RouteExamples.BuildOne | vectorize.c:303-341 | `create_graph` on one open polyline makes node 0 at its end and node 1 at its start, the polyline in the first slot of each |
| RouteExamples.OnePrepared | vectorize.c:500-501 | on one open polyline `create_graph` and `add_rapids` succeed and the rapids pair its two ends |
| RouteExamples.PairOfTwo | vectorize.c:163-186 | with two odd nodes the rapids pair them with each other |
| RouteExamples.PairOfThree | vectorize.c:163-186 | with counts 4, 1 and 1 the rapids pair nodes 1 and 2 |
| RouteExamples.OneFirstRound | vectorize.c:521-531 | the first turn as written crosses the polyline from the picked end to the other, marking only the other used |
| RouteExamples.OneStalls | vectorize.c:521-531 | after that turn `next_point` picks the start, which has nothing left |
| RouteExamples.OneNeverEnds | vectorize.c:521-531 | on one open polyline the loop of optimized_dump as written reaches a graph from which it never ends |
| RouteExamples.SingleRoutesAll | vectorize.c:494-537 | the intended optimized_dump routes any single polyline completely |
| RouteExamples.SpurBuild | vectorize.c:303-341 | `create_graph` on two open polylines and a closed loop at their shared end builds the expected nodes and slots |
| RouteExamples.SpurAsWritten | vectorize.c:441-471 | the dump as written from an end of that graph never returns to the node with the loop and stops the program at its check |
| RouteExamples.SpurIntended | vectorize.c:441-484 | the dump restarting its scan at the first step goes through, walking from that end to the other odd node |
| RouteExamples.SpurStops | vectorize.c:521-531 | the turn as written from node 1 stops the program, the intended turn goes through |
| RouteExamples.DumpScans | vectorize.c:441-471 | the dump stops the program exactly when a node its walk reaches has something left |

## Left out

- Floating point. Doubles in `tsp.c` (the `Metric` of `Tsp`), `cut.c` (`Cut.Pt`, the tolerance tests, the areas) and the distances of `vectorize.c` (the `dist` and `home` parameters of `Rapids` and `Route`) are real numbers here. Ties and comparisons that depend on rounding are therefore not reproduced, and neither are NaN and infinity except where the model states them (`Optim.StatsDegenerate`).
- Geometry behind parameters: the distance, significance and hole-clearance tests of `check_line` and `holeToLine`, the `max_dev > sqrt(2)` and `aver_dev` thresholds as exact real tests, the circle area of `polygon_area` and `i2realX`/`i2realY` are fields of `Optim.Geometry` or function parameters. Only their results are modelled, not how the C program computes them.
- Memory: the `calloc`, `realloc` and `malloc` failure paths are absent; every allocation succeeds. `free_all`, `free_multigraph`, `tsp_close` and the recursive tree frees are not modelled; the store, tree and graph values simply stop being used.
- I/O: the PBM header parser of `input_img_read` (`file_read_char`, `file_read_uint`), image and debug writers, `read_cut`'s `getline`/`sscanf`, `tsp_solve` with its temporary file and `linkern` run, and all `printf` diagnostics and timing (including `bit_e`'s timers and `statist`).
- The post-processors: `postprocesor_route`, `postprocesor_rapid` and the comment and operation calls appear only as the move log `Router.Router.moves` (a rapid or a polyline per step); the G-code and SVG back ends, `pgeom.c`, `holes.c` and `main` are not part of this model.
- `polyline_rewrite` (polyline.c:150-162) is not used by the program and is not modelled.
- `Trace.WalkOn`: when `next_pixel` returns -2 in the middle of a walk (the pixel ahead is already traced, trace.c:169-170), the C loop (trace.c:264-282) tests only for -1, keeps the -2 in the unsigned `dir` as 0xfe, and `bit_2_data` makes that direction 2, one step right and up (`Trace.RetracedTurn`). The walk then continues from the traced pixel and may step onto the frame and read outside the raster. This is reachable whenever a dead end is followed by a traced pixel straight ahead. The model ends the walk with `Retraced` there, and `Trace.TraceJunctions` and `Trace.Trace` report it, instead of following the C walk further.
- `Trace.WalkOn`: its `Fatal` end, from the `WrongDir` result of `Trace.NextPixel`, stands for the `exit(1)` of trace.c:204-206, which `next_pixel` reaches when handed a direction with no single bit set. A `ret` of 0 in the middle of a walk leads there.
- The safety sweep at the end of `trace` (trace.c:355-364) only prints and is not modelled.
- `Optim.Optimiser.constructor`: requires every polyline to have at least two points. `polyline_tree0` on a one-point polyline would follow a NULL `next`; the model does not describe that crash.
- `Polyline.Store.Append`: requires a non-empty store. `polyline_append` dereferences `first_polyline` without a check; the model does not describe the crash on an empty list.
- `Polyline.Store.Extend`: requires a non-empty store, for the same unchecked dereference in `polyline_extend`.
- `Tsp.Tsp.Nn`: reorders with the corrected `Tsp.Reorder`, whose first length sum stays on the path. The sum as written, which reads the record past the end (tsp.c:255-258), is modelled only by the function `Tsp.ReorderAsWritten` and its lemmas.
- `Tsp.Tsp.Nn`, `Tsp.Tsp.GetNext`: require the result buffer not to be the input buffer (or to be absent). Both buffers being one array is not a state the C program reaches, and aliasing between them is not modelled.
- `Tsp.Tsp.GetNext`: requires at least one record; `tsp_getnext` on an empty store reads `ret_data[0]` of an empty buffer.
- `Rapids.AddRapids`: is built from the intended `Rapids.DrakeHougardy` (empty pairing without odd nodes, chain closed with its first node). The pairing as written is only the function `Rapids.DrakeHougardyAsWritten` with the examples under Findings.
- `Route.OptimizedDump`: is built only from the intended pieces: `Rapids.AddRapids` as above, the dump whose scan restarts at the first step, and the start marked used when it has nothing left. The program as written is modelled by `Route.Dump` and `Route.Rounds` with `fixed` false, and by the examples under Findings, but not as a whole pipeline.
- `Router.Router.OptimizedDump`: runs the same intended pieces as `Route.OptimizedDump`, so the class-level pipeline models the corrected program too.
- `Router.Router.PrepareGraph`: `add_rapids` is applied as the function `Rapids.AddRapids`. The in-place writes of the `L[0]`/`L[1]` arrays, the `dh` marks and the `rapid` pointers of the node list during the pairing are not modelled as updates in place.
- `Router.Router`: the node list, polylines and `g_data` walk are values with indices instead of pointers; aliasing between nodes is not modelled, and the list order is the reverse of the index order.
- `Expand.BitE`, `Expand.ExpandCopper`: require a copper frame on the raster (`CopperBorder`), which `create_border` provides (`Expand.BorderIsCopper`). Without it `SET_OR_MASK` would index outside `or_mask`; the model does not describe that.
- `Trace.Trace`: requires the frame that `create_border` and the recolouring leave (`Trace.Framed`), so no walk leaves the raster except as described for `Trace.WalkOn`.
- `Optim.CheckLine`: the signal comparison and the distance tests of `check_line` are the abstract parameters above; the recursion of `check_line` into the children follows the C code.
- `Route.Written`: the rapid that `Route.Emit` logs for a step over a rapid is the node's point `Rapid(gr.pos[node])`, the same form as the rapid to the start (vectorize.c:436) and the cut points (vectorize.c:354). The C passes `node->x / 2.0` to `i2realX`, whose parameter is an `int` (pcb2g.h:152), so the step rapid's target is the half coordinate truncated and then converted (vectorize.c:481-482); for an odd node coordinate it falls half a pixel short of where the next cut starts. The model does not capture this truncation or the different order of halving and conversion.
- `Router.Router.MarkWalk`: writes `Route.Written`, so its logged step rapids carry the same simplification.
- `Router.Router.DumpGraphComponent`: its log, the start rapid followed by `Route.Written`, treats the start rapid and the step rapids alike, with the same simplification.
- The `len` and `air_len` fields of the optimiser's tree nodes, which nothing reads back, are left out.

## Findings

| source | as written | input that shows it | evidently intended | confidence | as-written member | corrected member |
|---|---|---|---|---|---|---|
| tsp.c:255-258 | the first length sum of `nn` runs `j` up to `count - 1` and adds the distance from the last record to `tr[count]`, a record past the buffer | four records at x = 0, 1, 2, 3 in nearest-neighbour order, with a record at x = 100 past the buffer: the bound becomes 3 + 97, so exchanging the first two (length 4) is kept although the path gets longer | the sum over the path itself, `j < count - 1`, so an exchange is kept only when it shortens the path | not executed | Tsp.ReorderAsWritten, Tsp.InflatedBoundKeepsLongerSwap | Tsp.Reorder, Tsp.ExactOutcome |
| polyline.c:325-370 | a closed polyline with both ends at the point is found twice, so `p1 == p2`, and the loop that moves `p1`'s points onto `p2` moves them onto itself and never ends | one polyline (0,0), (1,0), (0,0) ending at (0,0), joined at (0,0) | a polyline matched at both its ends is not joined with itself: the join leaves it alone and reports 0 | not executed | Polyline.ClosedLoopMatchesTwice, Polyline.AliasedMoveNeverEnds | Polyline.Store.JoinInPoint |
| cut.c:225-237 | `skip_arg` tests the pointer instead of the character, so a NUL does not stop it | a last line "7" without newline, followed by the NUL: the scan runs past the end of the buffer | stop at the NUL as well as at '#' and white space | not executed | Cut.ArgEndAsWritten, Cut.ArgRunsPastNul | Cut.SkipArg |
| vectorize.c:104-158 | the chain starts at the first odd node but is closed with `image->first_mg`, the list head, which may be even; with no odd node at all the start loop walks off the end of the list | two closed loops at (0,0) and (5,5), no odd node: no start is found. An open polyline from (0,0) to (2,0) and a closed loop at (4,4), whose node is the even list head: that node gets a rapid, the odd node at (0,0) gets none, and `add_rapids` exits | pair nothing when no node is odd, and close the chain with its own first node | not executed | Rapids.DrakeHougardyAsWritten, RapidsExamples.LoopsNoOddNode, RapidsExamples.MixedClosesWithHead | Rapids.DrakeHougardy, Rapids.DrakeHougardyMatches, RapidsExamples.MixedClosesWithFirst |
| vectorize.c:441-460 | after splicing a sub-walk the scan restarts at `first_g` and then advances, so it resumes at the second step and never looks again at the node of the first step | two open polylines from (0,0) to (2,0) and (2,0) to (4,0) and a closed loop at (2,0): dumping from (0,0) leaves the loop untouched, and the check exits | restart the scan at the first step, so every node the walk reaches is emptied | not executed | RouteExamples.SpurAsWritten, RouteExamples.SpurStops, Route.Dump | Route.ScanWalk, Route.DumpSettles, RouteExamples.SpurIntended |
| vectorize.c:521-531 | `dump_graph_component` marks used only the nodes the walk reaches, so a start with nothing left stays unused and `next_point` picks it again for ever | one open polyline: after the first turn its start is unused with nothing left, and the loop never ends | mark the start used as well, so every turn consumes part of the graph or marks one more node | not executed | Route.StalledRoundRepeats, Route.StalledForever, RouteExamples.OneNeverEnds | Route.FinishRoutesAll, Route.OptimizedDumpRoutesAll, RouteExamples.SingleRoutesAll |
