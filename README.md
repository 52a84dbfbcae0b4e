# LunCV ring buffer: a Dafny model

This project models the candidate-validation core of the LunAero prototype processor's
`RingBufferClass`. The code lives in `LunCV/RingBuffer.py`.

Each video frame yields contours. The class keeps a rolling list of observations
`(frame, x, y, radius)` and a window of recent frames on disk. For the current frame `pfs`
it then does the following:

- scales the observations to fixed point (x and y in tenths of a pixel, radius in
  ten-thousandths);
- keeps radii inside a window;
- merges the candidates of each of the four frames `pfs .. pfs-3` that share a position;
- pairs the candidates of adjacent frames by cross product;
- adds distance, speed and bearing columns to each pair;
- joins pairs of segments into 22-column tracks;
- runs the tracks through a chain of boolean filters;
- emits the surviving tracks that start at frame `pfs`.

## Model

The model is organised by file:

- `seqs.dfy` holds the generic helpers: boolean-mask selection (`Filter`), `MapSeq`,
  subsequences, and `np.unique` (`SortUnique`).
- `tolerance.dfy` holds numpy's `isclose`.
- `rows.dfy` holds the row layouts and the fixed-point scaling. The 4-, 9-, 10-, 11- and
  22-column numpy rows are the datatypes `Cand`, `DistRow`, `SpeedRow`, `Segment` and `Track`.
- `candidates.dfy` holds `radius_thresh` and `interior_contours`.
- `pairing.dfy` holds `combineperms`, `stackdistance`, `getspeed`, `getdir` and the radius test.
- `trackfilters.dfy` holds the seven track filters.
- `gauntlet.dfy` holds the specification of `gauntlet` and of the `bird_range` emission.
- `framewindow.dfy` holds the on-disk frame window as a `map<int, Frame>` from offset to frame.
- `ringbuffer.dfy` holds `RingBufferClass`, whose methods update its fields in place.

The float routines `np.sqrt` and `arctan(dy/dx)·180/π` are parameters (`FloatOps`). Lemmas
that need a true square root assume `IsRoot(fl.sqrt)`.

| member | source | states |
|---|---|---|
| Tolerance.IsClose | LunCV/RingBuffer.py:39-41 | numpy's closeness test `abs(a-b) <= atol + rtol*abs(b)`, one-sided in `b`; the two lemmas below state its properties |
| Tolerance.IsCloseAsymmetric | LunCV/RingBuffer.py:39-41 | `isclose(a, b)` is `abs(a-b) <= atol + rtol*abs(b)`; swapping a and b changes the answer (1 vs 2 at rtol 0.5) |
| Tolerance.IsCloseReflexive | LunCV/RingBuffer.py:39-41 | with non-negative tolerances every value is close to itself |
| Rows.DefaultTolerances | LunCV/RingBuffer.py:32 | the constructor's default tolerances; the absolute speed and angle tolerances are non-zero, as the docstring demands |
| Rows.Trunc | LunCV/RingBuffer.py:318 | `astype(int)` truncates toward zero: the result is within 1 of the value, on the zero side |
| Rows.Scale | LunCV/RingBuffer.py:318 | frames unchanged; x and y become tenths, the radius ten-thousandths, truncated |
| Rows.Sign | LunCV/RingBuffer.py:515 | `np.sign`: -1, 0 or 1, with the sign of its argument |
| Rows.LexLt4IsStrictOrder | LunCV/RingBuffer.py:197 | the row order of `np.unique(gdl, axis=0)` is a strict total order |
| Rows.LexLt2IsStrictOrder | LunCV/RingBuffer.py:433 | the (x, y) order of `np.unique(in1[:, 1:3], axis=0)` is a strict total order |
| Seqs.SortUnique | LunCV/RingBuffer.py:197 | np.unique's result is strictly sorted and holds exactly the input's rows |
| Seqs.SortUniqueOfSorted | LunCV/RingBuffer.py:197 | strictly sorted input comes back unchanged |
| Seqs.FilterIsSubseq | LunCV/RingBuffer.py:413 | boolean-mask indexing `a[mask]` returns a subsequence of `a` |
| Seqs.FilterFuse | LunCV/RingBuffer.py:581-583 | two masks applied one after the other select what their conjunction selects |
| Candidates.RadiusThresh | LunCV/RingBuffer.py:400-416 | a row is in the result iff it is an input row with 2 <= radius <= 316000 |
| Candidates.RadiusThreshExact | LunCV/RingBuffer.py:400-416 | `radius_thresh` keeps, in order, exactly the rows with 2 <= radius <= 316000 |
| Candidates.RadiusThreshBoundaries | LunCV/RingBuffer.py:410-415 | both ends are inclusive: 2 and 316000 are kept, 1 and 316001 are dropped |
| Candidates.MaxRadius | LunCV/RingBuffer.py:437 | `np.amax` of the radius column bounds every radius and is attained |
| Candidates.WithX | LunCV/RingBuffer.py:435-436 | the rows selected for a point are those sharing its x only, not its y |
| Candidates.Dedupe | LunCV/RingBuffer.py:432 | empty input gives empty output, and non-empty input gives non-empty output |
| Candidates.InteriorContours | LunCV/RingBuffer.py:418-438 | the loop over the unique points builds exactly `Dedupe(in1)` |
| Candidates.DedupePoints | LunCV/RingBuffer.py:433-437 | the output's (x, y) columns are np.unique of the input's (x, y) columns |
| Candidates.DedupeUniquePoints | LunCV/RingBuffer.py:433-437 | one output row per distinct input (x, y), strictly sorted |
| Candidates.DedupeRadius | LunCV/RingBuffer.py:435-437 | each row's radius is the largest among the input rows with the same x; its frame comes from such a row |
| Candidates.DedupeFrame | LunCV/RingBuffer.py:323-324 | rows of a single frame stay rows of that frame |
| Candidates.MaxRadiusOfConstant | LunCV/RingBuffer.py:437 | the maximum of equal radii is that radius |
| Candidates.DedupeIdempotent | LunCV/RingBuffer.py:418-438 | on single-frame input, merging twice equals merging once |
| Candidates.DedupeRowStable | LunCV/RingBuffer.py:433-437 | on single-frame input, each point survives a second merge with the same frame and radius |
| Candidates.DedupeMaxStable | LunCV/RingBuffer.py:435-437 | the largest radius with a given x is the same before and after merging |
| Pairing.CombinePerms | LunCV/RingBuffer.py:477-485 | the output has exactly `len(in1) * len(in2)` rows, so an empty input gives no rows |
| Pairing.RepeatAt | LunCV/RingBuffer.py:483 | `np.repeat(in1, n)` holds `in1[i]` at row `i*n + j` |
| Pairing.TileAt | LunCV/RingBuffer.py:484 | `np.tile(in2, m)` holds `in2[j]` at row `i*len(in2) + j` |
| Pairing.CombinePermsAt | LunCV/RingBuffer.py:483-484 | row `i*len(in2) + j` pairs `in1[i]` with `in2[j]` |
| Pairing.CombinePermsIndex | LunCV/RingBuffer.py:483-484 | row `k` is `in1[k / len(in2)]` beside `in2[k % len(in2)]` |
| Pairing.CombinePermsMembers | LunCV/RingBuffer.py:477-485 | a pair is in the output exactly when its halves come from `in1` and `in2` |
| Pairing.BitAnd | LunCV/RingBuffer.py:386 | Python's `&` on sizes is at most either operand |
| Pairing.BitAndSelf | LunCV/RingBuffer.py:386 | `n & n == n` |
| Pairing.Distance | LunCV/RingBuffer.py:391-392 | column 8 is `sqrt(dx^2 + dy^2) / 10` with the square root a parameter; `DistanceIsEuclidean` states what it is under a true root |
| Pairing.StackDistance | LunCV/RingBuffer.py:368-398 | empty when `len(in1) & len(in2) == 0`; otherwise each row pairs an `in1` row with an `in2` row, carries their distance and passes the speed gate |
| Pairing.StackDistanceOneAgainstTwo | LunCV/RingBuffer.py:386 | one candidate against two gives no rows, because `1 & 2 == 0` |
| Pairing.StackDistanceEqualSizes | LunCV/RingBuffer.py:386 | two non-empty inputs of equal size pass the guard |
| Pairing.DistanceIsEuclidean | LunCV/RingBuffer.py:391-392 | with a true square root, column 8 `d` satisfies `d >= 0` and `100*d^2 == dx^2 + dy^2` |
| Pairing.GateIsInteger | LunCV/RingBuffer.py:395 | `2 < d/10 < 200` holds exactly when `40000 < dx^2 + dy^2 < 400000000` |
| Pairing.StackDistanceKeepsGated | LunCV/RingBuffer.py:386-397 | past the guard, the output is the gated rows of the cross product with their distances, in cross-product order |
| Pairing.Speed | LunCV/RingBuffer.py:454 | for rows from different frames, column 9 times `t1 - t2` is the distance |
| Pairing.GetSpeed | LunCV/RingBuffer.py:440-456 | same length; columns 0..8 kept; column 9 times `t1 - t2` is the distance |
| Pairing.Bearing | LunCV/RingBuffer.py:471-472 | column 10 applies the bearing routine to `(y1 - y2, x1 - x2)`, the routine being a parameter |
| Pairing.GetDir | LunCV/RingBuffer.py:458-475 | same length; columns 0..9 kept; column 10 is the bearing of `(y1 - y2, x1 - x2)` |
| Pairing.RadiusMatch | LunCV/RingBuffer.py:337 | keeps, in order, exactly the segments whose radii are close under (radr, rada) |
| TrackFilters.DistDirTest | LunCV/RingBuffer.py:487-503 | a track is kept iff it is an input track whose distances (cols 8, 19) and bearings (cols 10, 21) are close |
| TrackFilters.DistDirTestExact | LunCV/RingBuffer.py:487-503 | keeps, in order, exactly the tracks whose distances (cols 8, 19) and bearings (cols 10, 21) are close |
| TrackFilters.SignsAgreeMeaning | LunCV/RingBuffer.py:515-518 | the score is 4 exactly when `sign(x2-x1) == sign(x4-x3) != 0` and `sign(y2-y1) == sign(y4-y3) != 0` |
| TrackFilters.DirectionCleanup | LunCV/RingBuffer.py:505-522 | a track is kept iff it is an input track with direction score 4 |
| TrackFilters.DirectionCleanupExact | LunCV/RingBuffer.py:505-522 | `direction_cleanup` keeps exactly the tracks whose signs agree and are non-zero on both axes |
| TrackFilters.DirectionCleanupDropsStill | LunCV/RingBuffer.py:515-518 | a track with no motion on either axis in either segment is dropped |
| TrackFilters.SpeedTest | LunCV/RingBuffer.py:524-535 | a track is kept iff it is an input track with col 9 < 450, col 20 < 450 and the two speeds close |
| TrackFilters.SpeedTestExact | LunCV/RingBuffer.py:524-535 | keeps, in order, exactly the tracks with col 9 < 450, col 20 < 450 and the two speeds close |
| TrackFilters.GapingHole | LunCV/RingBuffer.py:537-548 | on typed rows the reshape of an empty table is the identity |
| TrackFilters.LinearJump | LunCV/RingBuffer.py:572-584 | a track is kept iff it is an input track with `(t2, x2, y2) == (t3, x3, y3)` |
| TrackFilters.LinearJumpExact | LunCV/RingBuffer.py:572-584 | keeps, in order, exactly the tracks with `(t2, x2, y2) == (t3, x3, y3)` |
| TrackFilters.ReversalCheck | LunCV/RingBuffer.py:586-596 | a track is kept iff it is an input track with `x1 != x4` and `y1 != y4` |
| TrackFilters.ReversalCheckRejects | LunCV/RingBuffer.py:595 | a track with `x1 == x4` or `y1 == y4` is dropped |
| TrackFilters.EveryFilterIsSubsequence | LunCV/RingBuffer.py:487-608 | each of the seven filters returns a subsequence of its input |
| TrackFilters.StageDistDir | LunCV/RingBuffer.py:355 | the filtered rows are those passing the distance/direction test |
| TrackFilters.StageDirection | LunCV/RingBuffer.py:355-357 | the first two filters together select by one predicate |
| TrackFilters.StageSpeed | LunCV/RingBuffer.py:355-359 | the first three filters together select by one predicate |
| TrackFilters.StageContinuity | LunCV/RingBuffer.py:355-363 | the first five filters together select by one predicate |
| TrackFilters.BeforeMatchSpeedExact | LunCV/RingBuffer.py:351-363 | the chain up to `reversal_check` keeps, in order, exactly the tracks passing every one of its tests |
| TrackFilters.MatchSpeed | LunCV/RingBuffer.py:598-608 | a track is kept iff it is an input track whose cols 8 and 19 are close under (sper, spea) |
| TrackFilters.MatchSpeedRemovesNothing | LunCV/RingBuffer.py:598-608 | `match_speed` tests columns 8 and 19, the test `distdirtest` already made, so it removes nothing |
| TrackFilters.TrackChain | LunCV/RingBuffer.py:351-365 | a track survives the seven filters iff it is an input track for which `Accepts` holds |
| TrackFilters.TrackChainExact | LunCV/RingBuffer.py:351-365 | the whole chain is a subsequence and keeps a track iff `Accepts` holds for it |
| Gauntlet.Prepared | LunCV/RingBuffer.py:316-320 | a candidate survives the scaling and the radius window iff it is the scaled form of an input row with 2 <= radius <= 316000 |
| Gauntlet.FrameRows | LunCV/RingBuffer.py:323 | a row is selected for frame `f` iff it is in the table and has frame `f` |
| Gauntlet.FrameCands | LunCV/RingBuffer.py:322-324 | every merged candidate of `ins[i]` has frame `pfs - i` |
| Gauntlet.Join | LunCV/RingBuffer.py:346-349 | a join has `len(x) * len(y)` tracks, and a track is in it iff its segments come from `x` and `y` |
| Gauntlet.PairStage | LunCV/RingBuffer.py:331-337 | one `outs` entry: `stackdistance`, `getspeed`, `getdir`, then the radius test; `PairStageRows` and `PairStageComplete` state what it holds |
| Gauntlet.PairStageRows | LunCV/RingBuffer.py:329-337 | every segment of a pairing joins rows of the two frames, passes the gate and the radius test, and has speed = distance / (t1 - t2) |
| Gauntlet.PairStageComplete | LunCV/RingBuffer.py:329-337 | conversely, past the `&` guard every pair of the two frames that passes the speed gate and the radius test is a segment of the pairing |
| Gauntlet.Segments | LunCV/RingBuffer.py:329-337 | pairing `i` is the pairing of the merged candidates of frames `pfs-i` and `pfs-i-1`; `SegmentsFrames` states its frames |
| Gauntlet.SpeedOfUnitGap | LunCV/RingBuffer.py:454 | with `t1 - t2 == 1` the speed equals the distance |
| Gauntlet.SegmentsFrames | LunCV/RingBuffer.py:322-337 | pairing `i` runs from frame `pfs-i` to `pfs-i-1`, so its speed equals its distance |
| Gauntlet.GatedRowFacts | LunCV/RingBuffer.py:391-395 | with a true square root, a gated row's distance is Euclidean and its squared displacement lies in (40000, 400000000) |
| Gauntlet.SegmentsGate | LunCV/RingBuffer.py:331 | with a true square root, every segment of a pairing has that distance and displacement |
| Gauntlet.FourList | LunCV/RingBuffer.py:346-349 | the joins fltx×flty, flty×fltz and fltx×fltz stacked in that order; `FourListFrames` states their frames |
| Gauntlet.FourListFrames | LunCV/RingBuffer.py:346-349 | continuous rows cover frames (pfs, pfs-1, pfs-1, pfs-2) or (pfs-1, pfs-2, pfs-2, pfs-3); the fltx×fltz join never survives |
| Gauntlet.JoinFrames | LunCV/RingBuffer.py:346-349 | given pairings of frames (n, n-1), (n-1, n-2) and (n-2, n-3), the continuous joins have one of the two frame patterns, and exactly the first join starts at n |
| Gauntlet.GauntletResult | LunCV/RingBuffer.py:291-366 | the filter chain applied to the fourlist of the scaled, radius-windowed input; `GauntletFrames` states what survives |
| Gauntlet.GauntletFrames | LunCV/RingBuffer.py:291-366 | every track the gauntlet returns passes every test and has one of those two frame patterns |
| Gauntlet.EmittedFromFirstJoin | LunCV/RingBuffer.py:215-227 | the tracks starting at `pfs` are exactly the accepted joins of fltx with flty |
| Gauntlet.Emitted | LunCV/RingBuffer.py:215-227 | what `bird_range` emits is exactly the accepted fltx×flty joins, all covering frames (pfs, pfs-1, pfs-1, pfs-2) |
| FrameWindow.CopyBound | LunCV/RingBuffer.py:118-121 | the cycle copies nothing when pfs == 0, and otherwise up to the smaller of `last` and `pfs + 1` |
| FrameWindow.ShiftedStep | LunCV/RingBuffer.py:121-128 | one iteration `i` copies offset i-2 to i-1 when it is in range and the file exists, reading an untouched slot |
| FrameWindow.ShiftedNone | LunCV/RingBuffer.py:121-124 | with an empty copy range the window is unchanged |
| FrameWindow.ShiftedBelowOne | LunCV/RingBuffer.py:124-131 | iteration `i == 1` reads offset -1, which never exists, so it changes nothing |
| FrameWindow.ShiftedOffsets | LunCV/RingBuffer.py:127-128 | copying writes only to non-negative offsets |
| FrameWindow.CopyDown | LunCV/RingBuffer.py:121-131 | the copy loop, run from `last` down to 1, produces `Shifted(w, 1, CopyBound(pfs, last))` |
| FrameWindow.CycleWindow | LunCV/RingBuffer.py:114-133 | the window with `img` at offset 0 and then the copy loop applied; `CycleFacts` states the result slot by slot |
| FrameWindow.CycleFacts | LunCV/RingBuffer.py:114-133 | offset 0 is `img`; with pfs > 0 offset 1 is `img` too; each copied offset holds its predecessor's old frame; the rest is unchanged; with pfs == 0 only offset 0 changes |
| FrameWindow.AddFrames | LunCV/RingBuffer.py:148 | `np.add` on uint8 frames adds pixel by pixel modulo 256 |
| FrameWindow.Accum | LunCV/RingBuffer.py:143-151 | the loop leaves a frame of the input's shape at offset 0 |
| FrameWindow.AccumSum | LunCV/RingBuffer.py:143-151 | with all slots present, the saved sum is `2 * (w[0] + w[1] + ... + w[last-2]) mod 256`, because iteration `i == 2` re-reads the running sum |
| FrameWindow.AccumError | LunCV/RingBuffer.py:143-151 | the loop raises exactly when a slot 1..last-2 is missing or has another shape; a missing-file error names a missing slot |
| FrameWindow.Mask | LunCV/RingBuffer.py:153-154 | a pixel becomes 255 iff it was 1, and 0 otherwise |
| FrameWindow.Brighten | LunCV/RingBuffer.py:159 | positive pixels become 255, zero stays 0 |
| FrameWindow.BrightenMask | LunCV/RingBuffer.py:153-159 | brightening a mask changes nothing |
| FrameWindow.BlankMask | LunCV/RingBuffer.py:143-159 | the doubled sum is even, so the mask `ringbuffer_process` produces is entirely 0 |
| FrameWindow.MaskInPlace | LunCV/RingBuffer.py:153-154 | the two in-place assignments produce `Mask` of the old pixels |
| FrameWindow.BrightenInPlace | LunCV/RingBuffer.py:159 | the in-place assignment produces `Brighten` of the old pixels |
| RingBuffer.NewObservations | LunCV/RingBuffer.py:170-178 | each new row has frame `pfs`; there is one row per contour with 8 < perimeter < 200, and no others |
| RingBuffer.Stack | LunCV/RingBuffer.py:186 | `column_stack` row `i` is `(tim[i], xxx[i], yyy[i], rad[i])` |
| RingBuffer.KeptStep | LunCV/RingBuffer.py:170-178 | one loop iteration appends exactly the row of a kept contour |
| RingBuffer.Retained | LunCV/RingBuffer.py:107-112 | `re_init` keeps, in order, exactly the observations with `tim >= pfs - last` |
| RingBuffer.RetainedTwice | LunCV/RingBuffer.py:107-112 | a second `re_init` at the same frame removes nothing more |
| RingBuffer.UniqueRows | LunCV/RingBuffer.py:196-197 | the distinct input rows, strictly sorted |
| RingBuffer.UniqueRowsOfSorted | LunCV/RingBuffer.py:197 | sorted, duplicate-free input passes unchanged |
| RingBuffer.SelectFrame | LunCV/RingBuffer.py:322-324 | one `ins` iteration yields the merged candidates of frame `pfs - i` |
| RingBuffer.PairFrames | LunCV/RingBuffer.py:329-337 | one `outs` iteration yields the pairing of its two frames |
| RingBuffer.RingBufferClass.constructor | LunCV/RingBuffer.py:61-70 | tolerances stored, `last` is the argument plus 2, pfs 0, every list empty, no frames stored |
| RingBuffer.RingBufferClass.PullList | LunCV/RingBuffer.py:181-187 | one row per observation, with the four parallel lists as columns |
| RingBuffer.RingBufferClass.ReInit | LunCV/RingBuffer.py:89-112 | the new rows are the old rows filtered by `tim >= pfs - last`; the lists stay parallel; nothing else changes |
| RingBuffer.RingBufferClass.GetCenters | LunCV/RingBuffer.py:165-179 | an empty list raises with no change; otherwise the kept contours' rows are appended at frame `pfs` |
| RingBuffer.RingBufferClass.SetPosFrame | LunCV/RingBuffer.py:639-642 | pfs is set and nothing else changes |
| RingBuffer.RingBufferClass.RingBufferCycle | LunCV/RingBuffer.py:114-133 | the new window is `CycleWindow` of the old one, and no other field changes |
| RingBuffer.RingBufferClass.RingBufferProcess | LunCV/RingBuffer.py:135-163 | missing offset 0 raises; pfs == 0 or pfs < last returns `img`; otherwise offset 0 holds the last saved sum, and the outcome is an error or the mask of the sum, in three channels when observations exist |
| RingBuffer.RingBufferClass.RunGauntlet | LunCV/RingBuffer.py:291-366 | the loops over `ins` and `outs` and the filter chain compute exactly `GauntletResult` |
| RingBuffer.RingBufferClass.BirdRange | LunCV/RingBuffer.py:195-227 | the selection equals `Emitted` of np.unique's rows |

## Left out

- Directory and file I/O is not modelled: `os.mkdir`, the csv and png writes, `gc`, `print` and
  `np.set_printoptions`. The frame files are the `frames` map and `Frame_mixed.npy` is the
  `mixed` field.
- The cv2 calls are foreign and not modelled. `arcLength` and `minEnclosingCircle` become the
  precomputed fields of `Contour`. `cvtColor` becomes the `Bgr` tag. `addWeighted`,
  `draw_rotated_box` and `output_points` (drawing glue) are not modelled. `bird_range` is
  modelled for the tracks it selects, not for the images or files it writes.
- `edgecheck` only writes a log file from float tests, so it is not modelled.
- Float values are abstract. The square root and the bearing are parameters. numpy's NaN and
  inf handling in `isclose`, and float rounding, are not modelled.
- Pairing.GetSpeed, Pairing.Speed and Gauntlet.PairStage: all require the paired rows to come from
  different frames. numpy would divide by zero instead. Inside the gauntlet the frames always
  differ by one.
- TrackFilters.GapingHole: numpy's reshape of an empty table to 22 columns has no
  counterpart on typed rows, so the function is the identity.
- The constructor takes every argument explicitly. `DefaultTolerances` and `DEFAULT_LAST`
  record the defaults (`last=5`, which the class stores as 7); `procpath`, `fill` and `width`
  belong to I/O and drawing and are not modelled.
- Candidates.DedupeRadius: states that the frame comes from some row sharing x. The code takes
  the first such row, and `DedupeRow` models that, but the lemma does not state it. On
  single-frame input the two agree, as `DedupeFrame` shows.
- The `newgdl` loop in `bird_range` is not modelled: its result is never used, because
  `gauntlet` receives `gdl`.
- The constructor's `pfs > 0` placeholder branch is not modelled: it cannot run, because
  `pfs` is 0 at construction.
- The class-level list attributes are ordinary fields of each object.
- The `aaa` and `bbb` scratch attributes are local variables.
- The `TypeError` handler in `ringbuffer_process` is not modelled: nothing in the model can
  raise it.
- A shape mismatch in `np.add` is the `ShapeMismatch` error, without numpy broadcasting.
- Image shapes are flattened to one sequence of pixels per frame.
