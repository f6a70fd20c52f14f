# polyfarm core in Dafny

A model of the core of polyfarm. polyfarm arranges a fixed set of
polyomino-like shapes into a closed ring. It runs an evolutionary search
over placements and maximises the area the ring encloses. The model covers
three parts:

- the integer grid geometry of `src/shape.hpp`: the data `setup` derives from
  a shape's squares, `is_set`, shape equality, rotations and mirroring,
  `get_variations`, `overlap_status`, `distance`, `angle_greater`,
  `get_bounds`, `center`, `flood_fill`, `score`, `extract_core`, `best_fit`
  and `parse`;
- the mutation and selection rules of the loop in `src/main.cpp`: the three
  mutation operators, the duplicate-free elite copy, the rank-biased parent
  pick, best-of-retries, and the order in which a generation's slots are
  written;
- the integer vector `vec2<int>` of `src/vec2.hpp`.

Modules, leaves first:

| module | file | models |
|---|---|---|
| `Vectors` | vectors.dfy | `vec2<int>`, `OFFS`, `COFFS` |
| `IntMath` | intmath.dfy | C++ `int` limits, `std::min`/`max`/`abs`, `/ 2` truncating toward zero, sums |
| `Lists` | lists.dfy | de-duplicating append (`std::find` + `push_back`), concatenation, sorted lists |
| `Cells` | cells.dfy | occupancy masks and the `mask[x + y*w] = 1` loops |
| `Shapes` | shapes.dfy | `struct shape`: `setup`, `is_set`, `==`, `rotated`, `mirrored`, `get_variations` |
| `Contacts` | contacts.dfy | `overlap_status`, `distance` |
| `Angles` | angles.dfy | `angle_greater` over exact reals |
| `Parsing` | parsing.dfy | `shape::parse`, with the stream given as its lines |
| `Selection` | selection.dfy | the "first strict improvement" scans of `best_fit` and of the retry loop |
| `Layouts` | layouts.dfy | `shape_pos`, `get_bounds`, `center` |
| `BestFit` | bestfit.dfy | `best_fit` with the cost as a function parameter |
| `Flood` | flood.dfy | the depth-first 8-connected fill as a worklist loop |
| `Start` | start.dfy | the fill's start cell and its nudge |
| `Enclosure` | enclosure.dfy | `flood_fill` on a layout: rasterising, filling, `hit_fn` |
| `Cores` | core.dfy | `extract_core` |
| `Scoring` | scoring.dfy | `score` |
| `BlockLayout` | block.dfy | a concrete layout on which the start nudge fails |
| `Mutation` | mutation.dfy | the three mutation operators of `main` |
| `Evolution` | evolution.dfy | constants, elites, parent pick, best-of-retries, generation slots |

Conventions:

- A shape keeps only its list of squares. Its width, height, mask and
  boundary list are written only by `setup`, which recomputes all of them
  from the squares. So the model states them as functions of the squares:
  `Width`, `Height`, `MaskOf` and `Boundary`.
- A mask is kept as `h` rows of `w` entries, `m[y][x]`. The source keeps the
  same data flat, at index `x + y*w`.
- Coordinates are unbounded integers. Where a `std::numeric_limits<int>`
  sentinel takes part (`get_bounds`, `distance`, `extract_core`), it is
  modelled with its value, and the lemmas assume coordinates that fit in an
  `int`.
- Every `rand()` draw is a parameter. The score that the retry loop and the
  elite ranking use is a function parameter too.
- `flood_fill` indexes the mask at the start's `COFFS` neighbours without a
  bounds check. `Enclosure.Fillable` names the fact that makes this safe,
  `Start.ProbesInGrid`, and `Enclosure.NudgeInGrid` proves that every layout
  of one placement per shape at `int` positions satisfies it, so the
  precondition of `flood_fill`, `score` and `extract_core` excludes no such
  layout.
- `flood_fill`'s `hit_fn` is modelled by returning the list of cells it would
  be called on, in call order.

## Model

| member | source | states |
|---|---|---|
| Vectors.Zero | src/vec2.hpp:8 | the default constructor gives the vector (0, 0) |
| Vectors.AddSubInverse | src/vec2.hpp:11-12 | `+` and `-` act per component, so adding after subtracting `b` (or subtracting after adding) gives `a` back |
| Vectors.EqIsEquality | src/vec2.hpp:13 | `==` holds exactly when both components are equal |
| Vectors.AddAssign | src/vec2.hpp:15-19 | after `a += b`, `a` equals the old `a + b`, and subtracting `b` restores the old `a` |
| Vectors.Len2 | src/vec2.hpp:21 | `len2` is never negative and is zero only for the zero vector |
| Vectors.OffsAreUnitSteps | src/shape.hpp:16 | the four `OFFS` steps reach exactly the cells at Manhattan distance one |
| Vectors.CoffsAreAdjacent | src/shape.hpp:17 | the eight `COFFS` steps reach exactly the distinct cells that differ by at most one on each axis |
| IntMath.TruncHalf | src/shape.hpp:332-333 | C++ `v / 2` leaves a remainder of -1, 0 or 1 that has the sign of `v`, unlike Euclidean division |
| IntMath.TruncHalfOfMinusOne | src/shape.hpp:332-333 | on an empty layout `rb.x + lt.x` is `INT_MIN + INT_MAX` = -1, and C++ `-1 / 2` is 0 where Euclidean division gives -1 |
| IntMath.SumZeroIff | src/shape.hpp:298-305 | a sum of non-negative gaps is non-negative, and zero exactly when every gap is zero |
| Cells.PaintSets | src/shape.hpp:433-437 | after the mask loop a cell is set exactly when it was set before or is one of the painted squares |
| Shapes.Width | src/shape.hpp:425-430 | every square's x is below `width`; some square has x = `width` - 1; `width` is 0 exactly for no squares |
| Shapes.Height | src/shape.hpp:425-430 | every square's y is below `height`; some square has y = `height` - 1; `height` is 0 exactly for no squares |
| Shapes.IsSetExact | src/shape.hpp:60-63 | `is_set` holds exactly at the squares, so it is false outside [0,width)×[0,height) |
| Shapes.BoundaryExact | src/shape.hpp:439-449 | the boundary list holds every 4-neighbour of a square that is not a square, and each entry is such a neighbour, unset and not a square |
| Shapes.EqualIffSameCells | src/shape.hpp:66 | two shapes are `==` (same width and mask) exactly when they have the same set of squares |
| Shapes.Rotated | src/shape.hpp:81-101 | `rotated` keeps the number of squares, keeps them non-negative, and turns square `i` into square `i` of the result |
| Shapes.RotatedHas | src/shape.hpp:81-101 | a cell is a square of the turned shape exactly when the inverse turn maps it to a square of the original |
| Shapes.RotatedNormalized | src/shape.hpp:81-101 | turning a tight shape gives a tight shape; `CW_90` and `CW_270` swap width and height, `None` and `CW_180` keep them |
| Shapes.RotateQuarterInverse | src/shape.hpp:81-101 | for a tight shape (some square at x = 0 and some at y = 0), `CW_90` followed by `CW_270` gives back the same squares in the same order |
| Shapes.RotateTwoQuarters | src/shape.hpp:81-101 | for a tight shape (some square at x = 0 and some at y = 0), two `CW_90` turns equal one `CW_180` turn, square by square |
| Shapes.RotateHalfInvolution | src/shape.hpp:81-101 | for a tight shape (some square at x = 0 and some at y = 0), two `CW_180` turns give back the same squares |
| Shapes.Mirrored | src/shape.hpp:68-79 | `mirrored` keeps the number of squares and reflects square `i` across the box's vertical axis |
| Shapes.MirroredHas | src/shape.hpp:68-79 | a cell is a square of the mirror exactly when its reflection is a square of the original |
| Shapes.MirroredNormalized | src/shape.hpp:68-79 | mirroring a tight shape gives a tight shape with the same width and height |
| Shapes.MirrorInvolution | src/shape.hpp:68-79 | for a tight shape (some square at x = 0 and some at y = 0), mirroring twice gives back the same squares |
| Shapes.Variations | src/shape.hpp:103-121 | `get_variations` returns 1 to 8 shapes; entry 0 is the shape itself; no two entries are `==`; each entry is one of the eight transforms, and each transform is `==` to some entry |
| Shapes.Shape3Turn90 | src/test/test.cpp:84-88 | the `CW_90` turn of the test shape gives the listed squares, 2 wide and 4 high |
| Shapes.Shape3Turn180 | src/test/test.cpp:90-94 | the `CW_180` turn of the test shape gives the listed squares, 4 wide and 2 high |
| Shapes.Shape3Turn270 | src/test/test.cpp:96-100 | the `CW_270` turn of the test shape gives the listed squares, 2 wide and 4 high |
| Contacts.AnyOnIffMeet | src/shape.hpp:186-191 | the first loop finds a set cell of the second mask exactly when some placed square of one shape lies on a placed square of the other |
| Contacts.AnyBesideIffTouch | src/shape.hpp:193-200 | the second loop finds a set 4-neighbour exactly when some placed square of one shape is one step from a placed square of the other |
| Contacts.OverlapStatusIsCellStatus | src/shape.hpp:175-202 | `overlap_status` is Overlap exactly when a placed square of one shape lies on one of the other, else Border when some pair is one step apart, else Disjoint; the bounding-box early-out never changes the answer |
| Contacts.ApartIsFar | src/shape.hpp:178-181 | boxes that the early-out calls apart leave every pair of squares at least two steps apart |
| Contacts.OverlapStatusSymmetric | src/shape.hpp:175-202 | the classification does not depend on which shape is passed first |
| Contacts.OverlapStatusShift | src/shape.hpp:175-202 | moving both shapes by the same offset does not change the classification |
| Contacts.MinGapIsSmallest | src/shape.hpp:164-172 | the nested `std::min` loops find the smallest Manhattan gap over all pairs of squares |
| Contacts.DistanceIsMinGap | src/shape.hpp:154-173 | `distance` is always the smallest gap minus one; the early returns for Border and Overlap agree with it |
| Contacts.DistanceClassifies | src/shape.hpp:154-173 | `distance` is at least -1; it is -1 exactly for Overlap, 0 exactly for Border, and at least 1 exactly for Disjoint |
| Contacts.OverlapFixtureSame | src/test/test.cpp:105-106 | the two test shapes at the origin overlap |
| Contacts.OverlapFixtureBelow | src/test/test.cpp:108-112 | the second test shape three rows below the first borders it, wherever the pair is placed |
| Contacts.OverlapFixtureApart | src/test/test.cpp:114-115 | four rows below, the pair is Disjoint |
| Contacts.OverlapFixtureSide | src/test/test.cpp:117-118 | the second and third test shapes at (-2, 0) and (0, 2) border each other |
| Contacts.DistanceFixtureOverlap | src/test/test.cpp:122-123 | the second and third test shapes at the same position overlap, so their distance is -1 |
| Contacts.OverlapStatusFixtures | src/test/test.cpp:104-118 | `overlap_status` itself gives the five answers the test expects: Overlap, Border (twice), Disjoint, Border |
| Contacts.DistanceOfSmallestGap | src/shape.hpp:154-173 | when the smallest gap is at most `INT_MAX`, `distance` is one less than it |
| Contacts.DistanceFixtureSame | src/test/test.cpp:122-123 | `distance` itself gives -1 for the second and third test shapes at one position |
| Contacts.DistanceFixtureShifted | src/test/test.cpp:125-132 | `distance` itself gives `k - 3` for the second test shape `k` rows up and at most one column left of the third: 0, 1 and 2 for the three offsets the test uses |
| Contacts.DistanceFixtureRows | src/test/test.cpp:125-132 | at offsets (0,-3), (0,-4) and (-1,-5) the smallest gap is 1, 2 and 3 (`k - 2` for `k` rows up), so the distances are 0, 1 and 2 |
| Angles.AngleGreaterIsShortTurn | src/shape.hpp:21-24 | for angles in [0, 2π), `angle_greater(l, r)` holds exactly when the counter-clockwise turn from `r` to `l` lies strictly between 0 and π |
| Angles.AngleGreaterIrreflexive | src/shape.hpp:21-24 | no angle is greater than itself |
| Angles.AngleGreaterAsymmetric | src/shape.hpp:21-24 | at most one of two angles is greater than the other |
| Angles.AngleGreaterTotal | src/shape.hpp:21-24 | of two distinct angles in [0, 2π) that are not opposite, one is greater |
| Angles.AngleGreaterFixtures | src/test/test.cpp:135-142 | the six literal cases of the unit test |
| Parsing.Parse | src/shape.hpp:123-140 | `parse` succeeds exactly when it read a square, and it consumes at least one line when it succeeds |
| Parsing.ParseCells | src/shape.hpp:127-137 | a square (x, y) is read exactly when line y, above the first empty line, has a non-space character at column x |
| Parsing.ParseOrdered | src/shape.hpp:127-137 | the squares come out in reading order: by row, then by column |
| Parsing.ParseValid | src/shape.hpp:123-140 | parsed squares are never negative, so `setup` can index the mask with them |
| Parsing.ParseAll | src/shape.hpp:142-150 | the list form stops at the first shape without squares; every shape it returns has squares |
| Parsing.ParseFixture1 | src/test/test.cpp:61-73 | the first test text reads as the squares the test lists |
| Parsing.ParseFixture2 | src/test/test.cpp:61-74 | the second test text reads as the squares the test lists |
| Parsing.ParseFixture3 | src/test/test.cpp:58 | the third test text reads as the shape the rotation tests start from |
| Selection.FirstMinIsFirstLeast | src/shape.hpp:234-246 | the `d < min_d` scan from `DBL_MAX` writes nothing when no cost is below `DBL_MAX`, and otherwise keeps the first candidate of least cost |
| Selection.FirstMaxIsFirstGreatest | src/main.cpp:133-137 | the `score > max_score` scan keeps the first target of greatest score above the floor, and nothing when no score is above it |
| BestFit.CandidatesExact | src/shape.hpp:235-239 | the loops try exactly the placements `pos + bpos - cpos` over every variation, boundary cell of this shape and square of the variation |
| BestFit.BestFitIsFirstLeast | src/shape.hpp:232-250 | `best_fit` never changes the shape index; it leaves `res` alone when every cost is at least `DBL_MAX`; otherwise it writes the first candidate of least cost |
| Layouts.HullIsHull | src/shape.hpp:314-325 | for a non-empty layout with `int` positions the sentinels never survive: the loop computes the least corner and the greatest far corner, each reached by some rectangle |
| Layouts.BoundsIsBox | src/shape.hpp:311-326 | `get_bounds` gives the least position and the greatest position plus extent over the placements, each reached by a placement |
| Layouts.BoundsShift | src/shape.hpp:311-326 | moving every placement by `d` moves the bounding box by `d` |
| Layouts.CenterTranslates | src/shape.hpp:328-338 | `center` moves every placement by one common vector and keeps shapes, variations and the offsets between placements |
| Layouts.CenterCentres | src/shape.hpp:328-338 | after `center`, the two corners of the box sum to -1, 0 or 1 on each axis, because `/ 2` truncates toward zero |
| Layouts.CenterIdempotent | src/shape.hpp:328-338 | centring a centred layout changes nothing |
| Flood.InteriorIffNeighboursIn | src/shape.hpp:385-390 | a grid cell has all its `COFFS` neighbours in the grid exactly when it is not on the rim |
| Flood.Visit | src/shape.hpp:391-395 | an in-grid neighbour ends up marked; it is pushed exactly when it was unmarked, and a free neighbour of the popped cell has been pushed, now or earlier |
| Flood.Expand | src/shape.hpp:385-396 | the neighbour loop either finds a neighbour outside the grid, which makes the region open, or pushes every unmarked free neighbour |
| Flood.FloodFrom | src/shape.hpp:374-399 | the fill returns -1 exactly when a cell reachable from the start lies on the rim, and otherwise the number of reachable cells; `hit_fn` gets each reachable cell exactly once |
| Start.NudgeFromIsFirstFree | src/shape.hpp:364-371 | the nudge ends on the first free `COFFS` neighbour of the centre, or stays on the centre when all eight are occupied |
| Start.StartIsFirstFree | src/shape.hpp:363-372 | the start is the centre when that is free, else its first free neighbour; it is occupied only when the centre and all eight neighbours are |
| Start.Fill | src/shape.hpp:362-399 | the fill with an occupied start reported as open: -1 or the area n ≥ 1; `hit_fn` gets n distinct free cells, exactly the region |
| Start.FillAsWritten | src/shape.hpp:362-399 | the fill as the source runs it: from the start cell even when it is occupied |
| Start.BlockedStartCounted | src/shape.hpp:362-399 | on a grid whose centre and its neighbours are all occupied, the fill as written returns 1 where the corrected fill returns -1 |
| Enclosure.RasterInGrid | src/shape.hpp:344-360 | the grid is at least 1×1 and every placed square lands inside it, so the mask writes stay in bounds |
| Enclosure.RimFree | src/shape.hpp:323-324 | no square is rasterised into the last column or the last row of the grid, because `rb` lies at or beyond every placement's extent |
| Enclosure.NudgeInGrid | src/shape.hpp:363-371 | the unchecked probes of the start's `COFFS` neighbours stay inside the grid on every layout of one placement per shape at `int` positions: a covered centre makes the grid at least 3×3 |
| Enclosure.OccupancyExact | src/shape.hpp:349-360 | a grid cell is set in the rasterised mask exactly when a placed square covers it |
| Enclosure.FloodFill | src/shape.hpp:341-400 | the corrected `flood_fill`, which reports a start still covered after the nudge as open: it returns -1 or the enclosed area n ≥ 1; `hit_fn` is called n times on distinct enclosed cells, none covered by a square and all strictly inside the bounding box |
| Enclosure.AreaAsWritten | src/shape.hpp:362-399 | the area the source's fill returns agrees with the corrected area whenever the nudged start is free |
| Enclosure.StartExplored | src/shape.hpp:374-383 | the start cell, covered or not, is always among the cells the fill explores |
| Enclosure.FloodFillAsWritten | src/shape.hpp:341-400 | `flood_fill` as written fills from the start cell even when it is covered: it returns -1 or n ≥ 1; `hit_fn` gets n distinct cells, exactly the cells explored from the start, all strictly inside the bounding box |
| Cores.Corner | src/shape.hpp:405-410 | the running minimum from `INT_MAX` is a lower bound of every visited cell, reached on each axis |
| Cores.RelativeExact | src/shape.hpp:412 | subtracting `pos` from every cell is undone by adding it back, and keeps distinct cells distinct |
| Cores.ExtractCore | src/shape.hpp:402-416 | on the corrected fill, `extract_core` succeeds exactly for a closed layout; then the core's squares are distinct, touch both axes, number the enclosed area, and placed at `pos` are exactly the enclosed cells |
| Cores.ExtractCoreAsWritten | src/shape.hpp:402-416 | `extract_core` as written, on the source's fill: it succeeds exactly when that fill gives a positive area; then the core's squares are distinct, touch both axes, number that area, and placed at `pos` are exactly the explored cells |
| Scoring.PairGap | src/shape.hpp:301-305 | the gap between neighbouring slots is never negative and is zero exactly when they border each other |
| Scoring.GapSumZeroIffBorders | src/shape.hpp:298-305 | the cyclic gap sum is never negative, and zero exactly when every slot borders the next |
| Scoring.Dist | src/shape.hpp:298-306 | the accumulation loop computes the cyclic gap sum |
| Scoring.Score | src/shape.hpp:294-309 | on the corrected fill, `score` is the area of a closed layout and minus the gap sum of an open one; it is positive exactly for closed layouts and zero exactly for open ones whose slots all border the next |
| Scoring.ScoreRanks | src/shape.hpp:294-309 | on the corrected fill, a closed layout outranks every open one; a larger area outranks a smaller one; among open layouts the smaller gap sum ranks higher |
| Scoring.ScoreSpecAsWritten | src/shape.hpp:294-309 | the source's score agrees with the corrected score whenever the nudged start is free |
| Scoring.ScoreAsWritten | src/shape.hpp:294-309 | `score` as written is the source fill's area when that is positive and minus the gap sum otherwise; it is positive exactly when the fill's area is, and zero exactly when the fill is open and every slot borders the next |
| Scoring.ScoreRanksAsWritten | src/shape.hpp:294-309 | on the source's fill, a layout with positive area outranks every other; a larger area outranks a smaller one; among the rest the smaller gap sum ranks higher |
| Scoring.ScoreShift | src/shape.hpp:294-309 | on the corrected fill, moving a whole layout changes neither its area nor its score |
| Scoring.CenterKeepsScore | src/main.cpp:153-157 | on the corrected fill, centring each layout before scoring does not change its score |
| Scoring.ScoreShiftAsWritten | src/shape.hpp:294-309 | moving a whole layout changes neither the area nor the score the source computes |
| Scoring.CenterKeepsScoreAsWritten | src/main.cpp:153-157 | centring each layout before scoring does not change the score the source computes |
| BlockLayout.BlockFilledAsWritten | src/shape.hpp:362-399 | on one solid 4×4 block the fill as written returns 1 |
| BlockLayout.BlockStartExplored | src/shape.hpp:374-383 | on the block layout the explored start (2, 2) is covered by a placed square, so `hit_fn` and the core get a covered cell |
| BlockLayout.BlockFillsOne | src/shape.hpp:374-399 | on the block's 5×5 mask the fill from (2, 2) explores that cell alone and counts 1 |
| BlockLayout.BlockScoredAsWritten | src/shape.hpp:294-309 | scored as written, the block layout counts as closed with area 1 and scores 1.0 |
| BlockLayout.BlockScoredOpen | src/shape.hpp:294-309 | with the corrected fill, the block layout has area -1 and scores -1 |
| Mutation.Decode | src/main.cpp:114-122 | a flip's draws give slots below `nshapes`, a `COFFS` index below 8, and the operator `rand() % 3` |
| Mutation.Revaried | src/main.cpp:118-120 | re-variation changes only the `var_idx` of slots `pidx1` and `pidx2`, each to a valid index for its shape; positions and shapes are untouched |
| Mutation.Shifted | src/main.cpp:121-126 | range shift moves exactly the slots `pidx1..pidx2` by the offset, is a no-op when `pidx1 > pidx2`, and never changes a shape or variation |
| Mutation.Swapped | src/main.cpp:127-130 | identity swap exchanges the (`shape_idx`, `var_idx`) pairs of the two slots and keeps every position |
| Mutation.Apply | src/main.cpp:113-131 | every flip keeps the multiset of shape indices and keeps every index valid |
| Mutation.ApplyAll | src/main.cpp:113-131 | any sequence of flips keeps the multiset of shape indices and keeps every index valid |
| Mutation.IdentityOnePerShape | src/main.cpp:68-71 | the seed layout holds each shape 0..n-1 exactly once |
| Mutation.SwapInvolution | src/main.cpp:127-130 | swapping the same two slots twice gives back the layout |
| Mutation.ShiftInverse | src/main.cpp:121-126 | shifting a range by the opposite offset undoes a shift |
| Mutation.FullShiftTranslates | src/main.cpp:121-126 | shifting the whole range translates the whole layout |
| Mutation.ReVaryIdempotent | src/main.cpp:118-120 | repeating a re-variation with the same draws changes nothing more |
| Evolution.NumFlips | src/main.cpp:112 | the number of flips lies between `MIN_FLIPS` and `MAX_FLIPS` |
| Evolution.ISqrt | src/main.cpp:102 | the integer square root `r` satisfies r² ≤ n < (r+1)² |
| Evolution.ParentIndex | src/main.cpp:102 | the pick `floor(sqrt(rand() % (P*P)))` is a valid index below P |
| Evolution.ParentIndexIff | src/main.cpp:102 | index k is picked exactly by the residues from k² up to (k+1)² |
| Evolution.AsWrittenFavoursWorst | src/main.cpp:101-103 | when `rand()` reaches every residue below P² (`RAND_MAX + 1 ≥ P²`), rank k, counted from the best as `scores` is sorted, is picked by 2k+1 of them, so the worst rank is picked most often |
| Evolution.ParentIndexBelowRoot | src/main.cpp:102 | a draw no larger than `RAND_MAX` picks an index no larger than the integer root of `RAND_MAX` |
| Evolution.MsvcPicksBestRanks | src/main.cpp:102 | with the 15-bit `RAND_MAX` of 32767, every parent comes from the best 182 of the 10000 ranks |
| Evolution.RankedFavoursBest | src/main.cpp:101-103 | the corrected pick, counted from the best end: under the same `RAND_MAX + 1 ≥ P²`, rank k is picked by 2(P-1-k)+1 residues, so rank 0 is picked most often |
| Evolution.Elites | src/main.cpp:85-96 | the elite copy holds at most `NUM_ELITE` layouts, no two equal, all from the ranking, the best one first |
| Evolution.ElitesAreFirstDistinct | src/main.cpp:85-96 | the elites are the first distinct layouts of the ranking, in rank order |
| Evolution.BestOfIsFirstBest | src/main.cpp:106-140 | best-of-retries keeps a target of the greatest score, the first one on ties; it keeps the empty layout when no score is above `-DBL_MAX` |
| Evolution.Parent | src/main.cpp:101-103 | the parent is `scores[idx]` as written: the layout at the rank k, counted from the best, with k² ≤ `rand() % (P*P)` < (k+1)² |
| Evolution.Offspring | src/main.cpp:99-141 | an offspring is one of the mutated copies of the parent, or empty |
| Evolution.OffspringOnePerShape | src/main.cpp:99-141 | an offspring of layouts that hold each shape once holds each shape once |
| Evolution.FillGeneration | src/main.cpp:83-150 | a generation is written in full, 0..`GENERATION_SIZE`-1: elites first, then `NUM_MUTATED` offspring, then fresh layouts |

## Findings

| source | as written | input that shows it | evidently intended | confidence | as-written member | corrected member |
|---|---|---|---|---|---|---|
| src/shape.hpp:363-399 | when the grid centre and all eight of its neighbours are occupied, the nudge leaves the start on an occupied cell; the fill then pops it, calls `hit_fn` on it and returns 1 | one shape, a solid 4×4 block, at (0, 0): the grid is 5×5, the centre (2, 2) and its neighbours are covered, and `flood_fill` returns 1 | a start still occupied after the nudge means the layout is open (-1), so it is scored by the gap metric and `extract_core` reports no core | high; not executed | BlockLayout.BlockFilledAsWritten | BlockLayout.BlockScoredOpen |
| src/main.cpp:101-103 | `scores` is sorted best first, and when `rand()` reaches every residue below P² (a 31-bit `RAND_MAX`), `floor(sqrt(u))` picks rank k with weight 2k+1, so the worst-ranked layouts are picked as parents most often. With a 15-bit `RAND_MAX` (32767) the residue never exceeds 32767 and every parent comes from the best 182 ranks instead | P = 2: residues 1, 2 and 3 pick rank 1 (the worse layout) and only residue 0 picks rank 0 | a rank-biased pick that favours the best ranks, as the square-root draw does when counted from the best end | low; not executed; the outcome depends on the C runtime's `RAND_MAX` | Evolution.AsWrittenFavoursWorst | Evolution.RankedFavoursBest |

Both halves of each row are in the model. For the first row, the source's
behaviour is `Enclosure.FloodFillAsWritten`, `Cores.ExtractCoreAsWritten`
and `Scoring.ScoreAsWritten`; the corrected one is `Enclosure.FloodFill`,
`Cores.ExtractCore` and `Scoring.Score`, all three built on `Start.Fill`,
whose as-written counterpart is `Start.FillAsWritten`. The two agree on
every layout whose nudged start is free (`Enclosure.AreaAsWritten`,
`Scoring.ScoreSpecAsWritten`). For the second row, `Evolution.Parent` and
`Evolution.Offspring` pick as written, through `Evolution.ParentIndex`;
`Evolution.RankedParent` is the corrected pick and is used only by
`Evolution.RankedFavoursBest`.

## Left out

- `arrange_circle`, `estimate_len`, `dist2circle`, `angle_range` and `vec2::len`: floating-point geometry (`atan2`, `sqrt`, `round`). `best_fit` is modelled with the cost as a function parameter instead.
- The initial generation and the fresh layouts of each generation come from `arrange_circle` and `std::random_shuffle`. `Evolution.FillGeneration` takes them as a parameter.
- File input, `std::cout` logging, the chrono timing, the SVG output (`src/svg_gen.cpp`, `src/svg_gen.h`) and the periodic dump of the top layouts.
- `srand`/`rand`/`random_shuffle`: every draw is a parameter.
- `RAND_MAX` depends on the C runtime. The draw counts (`Evolution.AsWrittenFavoursWorst`, `Evolution.RankedFavoursBest`) take it as a parameter and assume `RAND_MAX + 1 ≥ P²`; they count residues, not probabilities, because `rand() % (P*P)` weights residues equally only when `RAND_MAX + 1` is a multiple of P². The 15-bit case is stated by `Evolution.MsvcPicksBestRanks`.
- Start.Fill: reports a start still covered after the nudge as open (-1), where the source counts from that cell. `Start.FillAsWritten` is the source's behaviour.
- Scoring.ScoreShift: states the translation invariance of the corrected area and score; `Scoring.ScoreShiftAsWritten` states it for the ones the source computes.
- Scoring.CenterKeepsScore: states that centring keeps the corrected score; `Scoring.CenterKeepsScoreAsWritten` states it for the score the source computes.
- Scoring.Score: models the corrected fill, so on a layout whose start is still covered after the nudge it gives minus the gap sum where the source gives 1.0. `Scoring.ScoreAsWritten` is the source's behaviour.
- Scoring.ScoreRanks: states the ranking of the corrected score; `Scoring.ScoreRanksAsWritten` states it for the source's score.
- Cores.ExtractCore: models the corrected fill, so on a layout whose start is still covered after the nudge it reports no core where the source returns true with a one-square core on the covered cell. `Cores.ExtractCoreAsWritten` is the source's behaviour.
- Enclosure.FloodFill: reports a start still covered after the nudge as open (-1), where the source returns the count from that cell. `Enclosure.FloodFillAsWritten` is the source's behaviour.
- The generation loop itself (`NUM_ITER` iterations, the buffer swap and `std::sort` by score). Its steps are modelled one by one; the ranked population is given.
- Evolution.ParentIndex: uses an exact integer square root. `sqrtf` on a `float` can round a residue just below P² up to P, which would index past the population.
- C++ `int` overflow of positions under repeated range shifts. `get_bounds`, `flood_fill` and `center` carry preconditions that positions fit in an `int`.
- Evolution.Offspring: the score is a function parameter. The model's `Scoring.Score` is a method whose result is stated by the ghost `ScoreSpec`, so it cannot be passed in.
- `parse` reads an `std::istream`; the model takes the lines `std::getline` would return, as sequences of characters.
