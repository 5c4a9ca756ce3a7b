# LAMaps core, modelled in Dafny

LAMaps turns a drawing into a route on a map of Los Angeles. This project
models the deterministic core of that system and proves properties of it:

- **Drawing page** (`drawing_page.dfy`, module `DrawingPage`).
  - Converts every point of each `freedraw` or `line` sketch element to a
    (lat, lon) waypoint around the map centre.
  - Pairs the returned waypoints into segments.
  - Computes the initial map bounds.
  - Runs the submit flow as a state machine over `loading`, `gpxHref`,
    `gpxFilename` and `waypoints` (class `Page`).
- **Skeleton-to-graph pipeline** on the server.
  - `grid.dfy` (`Grid`): the 8-neighbourhood of a pixel.
  - `sections.dfy` (`Sections`):
    - the intersection test;
    - the depth-first walk that splits a skeleton into sections (class
      `Sectionizer`). Ghost fields record the pixel each pixel was reached
      from and the order of reaching, so the split rule can be stated for
      the whole walk (`WalkShape`);
    - the greedy reordering of each section.
  - `linearize.dfy` (`Linearize`): mean-squared-error polyline simplification
    and the bisection over its threshold.
  - `skeleton_graph.dfy` (`SkeletonGraph`): the vertex list and the symmetric
    adjacency multimap.
- **Text to polyline** (`text_points.dfy`, `TextPoints`): text is traced with
  the constant glyph table in `glyphs.dfy` (`Glyphs`).
- **Unit-scaling placement** (`placement.dfy`, `Placement`): the degree-per-unit
  affine map and the loss-vector sum.
- **Fit-to-window scaling** (`visualizer.dfy`, `Visualizer`).
- **Session-claims normalisation** (`session.dfy`, `Session`).

`wrappers.dfy` holds the `Option` and `Result` datatypes. Python exceptions
(`IndexError`, `KeyError`, `ZeroDivisionError`, `max()` of an empty sequence)
and a thrown `await` become `Failure` values or explicit outcome parameters.

Modelling choices:
- Coordinates are reals.
- Euclidean norms are compared as squared distances (`norm < 10` becomes
  `SqDist < 100`, and `argmin` of norms becomes `argmin` of squared norms).
- Python's `defaultdict(list)` becomes a map (or a sequence indexed by a key
  that only grows by one) whose missing keys read as the empty list.
- Where the code departs from the intended design, the model follows the
  code:
  - Every point of a `line` element is converted, not only its anchor.
  - `boxWidth` is `-117.846837 - -117.837999`, which is negative (-0.008838).
    It is not the positive 0.0088. So moving right on the surface increases
    longitude.
  - Pairing fewer than two waypoints gives a singleton last entry, not
    nothing.
  - The previous GPX object URL is never revoked.
  - Place search is not last-query-wins.

## Model

| member | source | states |
|---|---|---|
| Session.Get | next-client/src/lib/auth.ts:9 | optional chaining: a missing object or key reads as `undefined`, a present key its value |
| Session.Coalesce | next-client/src/lib/auth.ts:14-15 | `a ?? b` is `a` unless `a` is null/undefined, then `b`; nullish exactly when both are |
| Session.CoalesceAssociative | next-client/src/lib/auth.ts:15 | `(picture ?? image) ?? ""` equals `picture ?? (image ?? "")` |
| Session.ParseSession | next-client/src/lib/auth.ts:8-17 | `undefined` exactly when the `user` claim is nullish; `name` is `user.name` unless nullish, then `"Guest"` (an empty name is kept); `picture` is the first non-nullish of `picture`, `image`, `""`; neither field is nullish |
| Session.OtherClaimsIgnored | next-client/src/lib/auth.ts:13-16 | any claim other than name, picture and image does not affect the result |
| Glyphs.TableKeys | server/hard_coded_text_pts.py:1-205 | the table's keys are exactly the letters 'A' to 'Z' |
| Glyphs.GlyphSizes | server/hard_coded_text_pts.py:1-205 | every glyph has 3 to 11 points; 'L' and 'V' have 3, 'C' has 11 |
| Glyphs.GlyphsInUnitSquareAToG | server/hard_coded_text_pts.py:2-65 | each point of glyphs 'A' to 'G' lies in [0, 1) x [0, 1) |
| Glyphs.GlyphsInUnitSquareHToN | server/hard_coded_text_pts.py:66-114 | each point of glyphs 'H' to 'N' lies in [0, 1) x [0, 1) |
| Glyphs.GlyphsInUnitSquareOToT | server/hard_coded_text_pts.py:115-164 | each point of glyphs 'O' to 'T' lies in [0, 1) x [0, 1) |
| Glyphs.GlyphsInUnitSquareUToZ | server/hard_coded_text_pts.py:165-204 | each point of glyphs 'U' to 'Z' lies in [0, 1) x [0, 1) |
| Glyphs.GlyphsInUnitSquare | server/hard_coded_text_pts.py:1-205 | every coordinate of every glyph in the table lies in [0, 1) |
| TextPoints.UpperChar | server/main.py:23 | `upper()` maps 'a'..'z' to 'A'..'Z' and leaves every other character alone |
| TextPoints.Upper | server/main.py:23 | for ASCII text, upper-casing keeps the length of the text |
| TextPoints.Shift | server/main.py:26 | a shifted glyph has as many points as the glyph |
| TextPoints.GeneratePoints | server/main.py:16-28 | the character loop with `extend` yields exactly the emission of the upper-cased text: the points, or the first character without a glyph (the KeyError) |
| TextPoints.EmitPoints | server/main.py:23-27 | the loop over the upper-cased characters, for any glyph table, yields exactly the emission of the text |
| TextPoints.FailureIsFinal | server/main.py:26 | once a character has raised, later characters cannot change the outcome |
| TextPoints.EmitFails | server/main.py:23-27 | emission fails exactly when some non-space character has no glyph, and it reports the first such character |
| TextPoints.GenerateFails | server/main.py:23-26 | for ASCII text, `generate_points` raises exactly when some upper-cased non-space character is not a capital letter |
| TextPoints.GlyphTotalMonotone | server/main.py:26-27 | the point count of a prefix never exceeds that of the whole text |
| TextPoints.EmitAt | server/main.py:23-27 | the output length is the sum of the non-space glyph sizes; point j of the character at position k sits after all earlier characters' points and equals glyph point j with x + k (text order, then glyph order) |
| TextPoints.EmitBounds | server/main.py:16-28 | every point emitted for position k has x in [k, k+1) and y in [0, 1): one unit tall |
| TextPoints.SpaceEmitsNothing | server/main.py:24-25 | appending a space to the text adds no points and no glyph count |
| TextPoints.CaseInsensitive | server/main.py:23 | upper-casing is idempotent, so lower- and upper-case text give the same points |
| TextPoints.EmptyText | server/main.py:22-28 | empty text gives an empty list |
| Placement.ScalingFactorsAreReciprocals | server/src/matrix.py:8-9 | the degree factors times 69 and 54.6 miles per degree are 1 within 1e-15 |
| Placement.UnplacePlace | server/src/matrix.py:25-27 | placement is injective: the unit offset is recovered from the placed point |
| Placement.PlaceUnplace | server/src/matrix.py:25-27 | placement is onto: every point is the placement of some offset |
| Placement.PlaceAnchors | server/src/matrix.py:27 | offset (0, 0) lands exactly on the starting point; (1, 1) lands one factor away on each axis |
| Placement.ScaleColumn | server/src/matrix.py:25-26 | one column is multiplied by the factor, everything else unchanged |
| Placement.ShiftColumn | server/src/matrix.py:27 | one column is shifted by the start component, everything else unchanged |
| Placement.ScaleAndPlace | server/src/matrix.py:21-29 | an empty list raises IndexError; otherwise a fresh n-by-2 array, so the caller's list is untouched, whose row i is the placement of input row i |
| Placement.LossVector | server/src/matrix.py:51-52 | the column sums of one row are that row; rows with non-negative losses give non-negative sums |
| Placement.LossVectorAppend | server/src/matrix.py:51-52 | the column sum over two blocks of rows is the sum of their column sums |
| Visualizer.Max | server/visualizer.py:25-26 | `max` returns an element that bounds every element |
| Visualizer.Xs | server/visualizer.py:25 | one x per point |
| Visualizer.Ys | server/visualizer.py:26 | one y per point |
| Visualizer.Trunc | server/visualizer.py:33 | `int()` truncates toward zero |
| Visualizer.ScalePoints | server/visualizer.py:22-34 | an empty list raises from `max`; a zero maximum raises division by zero; otherwise the same number of points in order, each coordinate truncated after scaling by the one factor `min(w/max_x, w/max_y)` |
| Visualizer.ScaledPointWithin | server/visualizer.py:33 | a point inside the maxima scales into [0, w] on both axes |
| Visualizer.FactorBounds | server/visualizer.py:29 | the factor is non-negative and at most both ratios |
| Visualizer.ScalePointsWithinWindow | server/visualizer.py:22-34 | for non-negative points, every output coordinate lies in [0, window_width] |
| Visualizer.ScaledAtMaximum | server/visualizer.py:29-33 | over exact reals, the coordinate that attains the limiting maximum scales to exactly the window width |
| Visualizer.ScalePointsFillsWindow | server/visualizer.py:22-34 | over exact reals, some output coordinate equals the window width, so the drawing fills the window |
| DrawingPage.BoxExtents | client/src/app/page.tsx:40-41 | `boxWidth` is -0.008838 (negative), `boxHeight` is 0.0048 (positive) |
| DrawingPage.InitialBounds | client/src/app/page.tsx:50-53 | the square `center +- 0.003` contains `center`, is symmetric about it and 0.006 wide on both axes |
| DrawingPage.ElementWaypoints | client/src/app/page.tsx:109-121 | an element yields one waypoint per point if it is `freedraw` or `line`, none otherwise |
| DrawingPage.ConvertScene | client/src/app/page.tsx:106-122 | the nested `forEach` pushing into `newWaypoints` builds exactly the scene's waypoint sequence |
| DrawingPage.SceneWaypointsLength | client/src/app/page.tsx:108-120 | the number of waypoints is the total point count of the drawn elements |
| DrawingPage.DrawnPointCountMonotone | client/src/app/page.tsx:108-120 | a prefix of the scene never has more drawn points than the scene |
| DrawingPage.SceneWaypointsAt | client/src/app/page.tsx:108-122 | point j of drawn element k is converted at index (drawn points before k) + j: element order, then point order |
| DrawingPage.SceneWaypointsFrom | client/src/app/page.tsx:108-122 | every waypoint is the conversion of some point of some drawn element |
| DrawingPage.ToWaypoint | client/src/app/page.tsx:111-117 | the surface point is recovered from the waypoint: `(center.lon - lon) / boxWidth * width` is `x + point.x` and `(center.lat - lat) / boxHeight * height` is `y + point.y` |
| DrawingPage.OriginMapsToCenter | client/src/app/page.tsx:111-117 | a point at the surface origin maps exactly to `center` |
| DrawingPage.FarCornerMapsToBoxCorner | client/src/app/page.tsx:111-117 | the far surface corner maps to `center - (boxHeight, boxWidth)` |
| DrawingPage.Orientation | client/src/app/page.tsx:116-117 | on a surface of positive size, moving right increases longitude and moving down decreases latitude |
| DrawingPage.PairWaypoints | client/src/app/page.tsx:153-160 | same length as the waypoints; entry i is `[w_i, w_i+1]` for i < n-1, the last is `[w_n-1]`, empty gives empty |
| DrawingPage.Page.constructor | client/src/app/page.tsx:46-63 | initial state: default centre, initial bounds, no waypoints, not loading, empty href and filename, download disabled, link invariant holding |
| DrawingPage.Page.DownloadEnabled | client/src/app/page.tsx:220-222 | the button is enabled exactly when `gpxHref` is non-empty, and then (on a valid page) it downloads an object URL under `encoded_data.gpx` |
| DrawingPage.Page.SubmitDrawing | client/src/app/page.tsx:94-151 | without a drawing API nothing changes; otherwise `loading` is set true then false whatever happens; href, filename `encoded_data.gpx` and the server's points replace the old ones only when export, request and decode all succeed; on a throw the old ones stay; centre and bounds are untouched; a set link always comes with the track file name |
| DrawingPage.DownloadLifecycle | client/src/app/page.tsx:94-151 | on a fresh page a submission without a drawing API or with a throw leaves the download disabled and no waypoints; a completed one then enables it, shows the server's points, names the file `encoded_data.gpx` and clears loading |
| Grid.Neighbors | server/img_to_points.py:26-30 | eight neighbours, in source order |
| Grid.NeighborsAreAdjacent | server/img_to_points.py:26-30 | the neighbours are exactly the 8-adjacent cells, all distinct |
| Grid.Swap | server/img_to_points.py:49 | the stored `(y, x)` form exchanges the two components |
| Grid.AdjacentSymmetric | server/img_to_points.py:26-30 | adjacency is symmetric and survives swapping both cells |
| Grid.OnPixelsMember | server/img_to_points.py:34 | a cell is an on-pixel exactly when it is in bounds and set |
| Sections.OnOffsetsMember | server/img_to_points.py:33-35 | an offset is listed exactly when its cell is one of the given neighbours and is on |
| Sections.NeighborDiffsMember | server/img_to_points.py:33-35 | the offsets are exactly those to 8-adjacent on-pixels |
| Sections.AnySplittingTriple | server/img_to_points.py:37-46 | the scan over 3-combinations returns true exactly when some three listed offsets have pairwise non-positive dot products |
| Sections.IsIntersection | server/img_to_points.py:32-46 | `is_intersection` holds exactly when three on-neighbour offsets are pairwise orthogonal or opposite |
| Sections.ExtendsTransitive | server/img_to_points.py:48-63 | sections only grow across nested calls |
| Sections.ExtendsKeeps | server/img_to_points.py:48-63 | a stored point stays in its section |
| Sections.StoredAppendNew | server/img_to_points.py:49 | appending to a fresh key stores one more point |
| Sections.StoredAppendAt | server/img_to_points.py:49 | appending to an existing section stores exactly one more point |
| Sections.StoredHoldsSection | server/img_to_points.py:75 | every section's points are among the stored points |
| Sections.StoredPointwise | server/img_to_points.py:74-97 | replacing each section by a permutation keeps the stored multiset |
| Sections.SwappedAdd | server/img_to_points.py:58 | marking a new pixel visited adds exactly its swapped form |
| Sections.NoRepeatMultiset | server/img_to_points.py:76 | a sequence without repeats has the multiset of its set |
| Sections.Sectionizer.constructor | server/img_to_points.py:23-25 | no sections, index 0, nothing visited, no pixel ranked or given a parent yet |
| Sections.ClosedThrough | server/img_to_points.py:58-63 | a walk from a neighbour marked just before it leaves every pixel marked since then with all its set neighbours visited |
| Sections.ClosureStep | server/img_to_points.py:52-63 | one neighbour step keeps the walk closed and adds the neighbour just looked at to those seen |
| Sections.Sectionizer.Dfs | server/img_to_points.py:48-63 | visited only grows, within the on-pixels; the stored points are exactly the swapped visited pixels, each once; `(y, x)` is appended at the end of its section as it stood; sections only grow; every section is non-empty and each point after the first is adjacent to an earlier one; every set neighbour of every pixel visited by the walk is visited (the walk is closed); every stored pixel keeps its placement in the walk (`WalkShape`) |
| Sections.Sectionizer.WalkNeighbors | server/img_to_points.py:52-63 | after the loop over the eight neighbours every set neighbour of `(x, y)` is visited, every pixel visited meanwhile has all its set neighbours visited, and `(y, x)` keeps its place |
| Sections.Sectionizer.VisitNeighbor | server/img_to_points.py:52-63 | an out-of-bounds, visited or unset neighbour changes nothing; otherwise it ends visited and is stored first in a new section under a fresh key when `(x, y)` is an intersection, else appended at the end of the current section |
| Sections.Sectionizer.Enter | server/img_to_points.py:58-63 | marking and walking a neighbour: it is reached from `(x, y)` and stored first under a fresh key when `(x, y)` is an intersection, else at the end of the current section; the walk is closed and keeps its placement (`WalkShape`) |
| Sections.Sectionizer.AppendToSection | server/img_to_points.py:49 | `sections[i].append((y, x))` on the defaultdict: a new key or an extended section, exactly one more stored point |
| Sections.Sectionizer.MarkReached | server/img_to_points.py:58 | `visited.add` of a new set pixel, which also gets the next rank and, when reached from a walked pixel, that pixel as parent; the pixel is then placed right after the given section content, and the walk keeps its placement |
| Sections.AppendPlaced | server/img_to_points.py:49 | appending a pixel where its parent and the split rule place it keeps every stored pixel placed |
| Sections.RankNew | server/img_to_points.py:58 | reaching a new pixel with the next rank keeps every stored pixel placed, and every rank below the clock |
| Sections.StartRankedFirst | server/img_to_points.py:67-68 | a set pixel the outer scan starts from, with every visited pixel's set neighbours visited, has no visited set neighbour and so is reached before all of them |
| Sections.ClosedCompose | server/img_to_points.py:65-70 | closure since the start and closure since a later point give closure since the start |
| Sections.AdjacentStartsSplit | server/img_to_points.py:58-63 | of two adjacent set pixels that both start a section, at least one was reached from an intersection: the walk never cuts between two non-intersection pixels |
| Sections.Sectionizer.Traverse | server/img_to_points.py:65-70 | after the outer scan every on-pixel is visited, ranked and stored exactly once, swapped, in non-empty connected sections, and every stored pixel is placed as the walk places it (`WalkShape`): either reached from an adjacent, earlier-reached parent, opening a fresh section exactly when the parent is an intersection and otherwise following the parent in its section, or a start of the scan, first in its section and reached before every set neighbour |
| Sections.Sectionizer.ScanRow | server/img_to_points.py:66-70 | after row x every set pixel of rows 0 .. x is visited and every visited pixel has all its set neighbours visited, with the walk invariants kept and the next key fresh |
| Sections.Sectionizer.StartAt | server/img_to_points.py:67-70 | a set pixel ends visited; an unset or already visited pixel changes nothing; the next key stays fresh; every visited pixel keeps all its set neighbours visited |
| Sections.AppendKeepsChained | server/img_to_points.py:49-63 | appending a pixel adjacent to one already in a section keeps it connected |
| Sections.FewestIndex | server/img_to_points.py:79-82 | `min` by neighbour count picks the first point of minimal in-section degree |
| Sections.ArgMin | server/img_to_points.py:88 | `argmin` picks the first point of minimal distance to the last point |
| Sections.PopKeepsRest | server/img_to_points.py:89 | `pop(i)` keeps every other queued point |
| Sections.AddToVisited | server/img_to_points.py:92-93 | appending an unvisited point keeps the new section equal to the visited set |
| Sections.FrontierPop | server/img_to_points.py:86-91 | popping a visited point keeps every unvisited neighbour of a visited point queued |
| Sections.FrontierVisit | server/img_to_points.py:92-96 | visiting a point and queueing its unvisited neighbours keeps that frontier property |
| Sections.ReachesFirst | server/img_to_points.py:86-96 | a neighbour-closed set that meets a connected section holds its first point |
| Sections.ReachesAll | server/img_to_points.py:86-96 | a neighbour-closed set holding the first point holds the whole connected section |
| Sections.ClosedCovers | server/img_to_points.py:86-96 | a non-empty neighbour-closed subset of a connected section is all of it |
| Sections.RestKeeps | server/img_to_points.py:88-89 | popping the nearest entry keeps every other entry and adds none |
| Sections.ReorderPopVisited | server/img_to_points.py:88-91 | popping an already visited point keeps the loop on its way to the same result |
| Sections.PopNewFrontier | server/img_to_points.py:88-96 | keeping a new point and queueing its unvisited in-section neighbours keeps every unvisited neighbour of a visited point queued |
| Sections.ReorderPopNew | server/img_to_points.py:88-96 | keeping a new point keeps the loop on its way to the same result |
| Sections.ReorderSection | server/img_to_points.py:76-97 | the result is exactly the greedy nearest-point loop `Reorder` run from the first fewest-neighbour point; it starts there, has no repeats and only section points, and for a connected section holds every point of it |
| Sections.VisitedCoversSection | server/img_to_points.py:86-96 | when the queue empties, the new section is the section's point set |
| Sections.UnvisitedIn | server/img_to_points.py:94-96 | an entry is listed exactly when it is one of the given neighbours, in the section and not visited |
| Sections.QueueNeighbors | server/img_to_points.py:94-96 | appends exactly the unvisited in-section neighbours, in neighbour order, after the existing queue |
| Sections.ReorderedSection | server/img_to_points.py:75-97 | a reordered section is a permutation of its walked section and starts at a point of fewest in-section neighbours |
| Sections.ReorderAll | server/img_to_points.py:74-97 | one result per walked section, in key order, each its reordering: the same cells from a fewest-neighbour point |
| Sections.ReorderAt | server/img_to_points.py:75-97 | one walked section reordered: `Reorder` of it, a permutation of it, starting at a fewest-neighbour point |
| Sections.Sectionize | server/img_to_points.py:20-99 | the walk stores every on-pixel exactly once, swapped to `(y, x)`, in non-empty connected sections, each placed as the walk places it (`WalkShape` over the returned parents and ranks: a section starts at a scan start or below an intersection, and otherwise each pixel follows its adjacent parent in the parent's section); each result section is the reordering of one walked section, holds the same cells and starts at a fewest-neighbour point |
| Linearize.SumSquares | server/img_to_points.py:112 | a sum of squared residuals is non-negative |
| Linearize.MeanSquaredError | server/img_to_points.py:112 | the mean of squared residuals over a non-empty slice is non-negative |
| Linearize.ProgressSkip | server/img_to_points.py:108-113 | skipping a point that does not exceed the threshold keeps the loop state valid |
| Linearize.ProgressKeep | server/img_to_points.py:113-115 | keeping a point that exceeds the threshold keeps the loop state valid |
| Linearize.ProgressSingle | server/img_to_points.py:102-104 | a one-point section has only its first point after the empty loop |
| Linearize.ProgressFinish | server/img_to_points.py:116 | appending the last point completes a simplification |
| Linearize.ConsiderPoint | server/img_to_points.py:106-115 | one iteration keeps the point exactly when its x differs from the last kept point and the slice error reaches the threshold |
| Linearize.LinearizeSection | server/img_to_points.py:101-118 | an empty section raises; one point gives `[p, p]`; otherwise the result is the threshold simplification |
| Linearize.IndicesIncrease | server/img_to_points.py:104-115 | kept indices strictly increase |
| Linearize.SimplificationShape | server/img_to_points.py:101-118 | the result has 2 to n points, keeps the first and last, uses only section points, and never keeps an interior point with the same x as the point kept before it |
| Linearize.SimplificationIndexBound | server/img_to_points.py:104-115 | kept index k is at least k |
| Linearize.SimplificationUnique | server/img_to_points.py:101-118 | at a given threshold the simplification is unique, so the characterisation is complete |
| Linearize.SameIndices | server/img_to_points.py:101-118 | two simplifications agree on every kept index up to any position |
| Linearize.LinearizeAll | server/img_to_points.py:127 | the comprehension raises exactly when some section is empty; otherwise one linearized section per input, in order |
| Linearize.ReduceSections | server/img_to_points.py:120-135 | raises exactly when a section is empty; otherwise at most 100 bisection steps with `0 <= lo <= threshold <= hi <= 10`, an early stop only on an exact point total, and one linearized section per input, in order |
| SkeletonGraph.AppendShape | server/img_to_points.py:153-154 | `append` on the defaultdict adds the key if missing, puts the entry last after the old ones and leaves every other list alone |
| SkeletonGraph.AppendCounts | server/img_to_points.py:153-154 | an append adds one occurrence of its pair only and keeps every link |
| SkeletonGraph.LinkKeeps | server/img_to_points.py:153-154 | the paired appends keep the adjacency symmetric and within the vertex range, and link both ways |
| SkeletonGraph.FlattenAt | server/img_to_points.py:147-150 | point i of section k is vertex (points before section k) + i |
| SkeletonGraph.FlattenMember | server/img_to_points.py:147-150 | every vertex comes from some section |
| SkeletonGraph.LastIndex | server/img_to_points.py:149 | `global_indices` keeps the last index at which a point was added |
| SkeletonGraph.IndexesLastAppend | server/img_to_points.py:149-150 | recording a point at the end keeps `global_indices` at last occurrences |
| SkeletonGraph.KeepsConsecutive | server/img_to_points.py:151-154 | later appends never remove a consecutive link |
| SkeletonGraph.LinkOnly | server/img_to_points.py:153-154 | a two-way append adds its pair in both directions and nothing else |
| SkeletonGraph.LinkSectionOnly | server/img_to_points.py:149-154 | the loop over one section adds only links between consecutive points |
| SkeletonGraph.LinkSectionsOnly | server/img_to_points.py:148-154 | the first loop adds only links between consecutive points of a section |
| SkeletonGraph.JoinEndsOnly | server/img_to_points.py:158-161 | the end-pair loop adds only links between close ends |
| SkeletonGraph.JoinRowOnly | server/img_to_points.py:156-161 | joining one section with the later ones adds only links between close ends |
| SkeletonGraph.JoinAllOnly | server/img_to_points.py:156-161 | the second loop adds only links between close ends of two sections |
| SkeletonGraph.GraphLinksOnly | server/img_to_points.py:145-161 | every link of the graph joins consecutive points of a section or close ends of two sections, nothing else |
| SkeletonGraph.AddVertex | server/img_to_points.py:150-151 | the point is appended to the vertex list, `global_indices` keeps last occurrences, and the point gets the next index |
| SkeletonGraph.PointIndices | server/img_to_points.py:150-154 | when point i > 0 is added, `global_indices` gives point i-1 the index it was last recorded at |
| SkeletonGraph.LinkPointKeeps | server/img_to_points.py:152-154 | the links of one point keep the adjacency symmetric and within range, keep every link and link the point to its predecessor |
| SkeletonGraph.AddPoint | server/img_to_points.py:148-154 | adding point i records it and links it both ways to the recorded index of point i-1; the adjacency is the fold `LinkPoint` of the old one |
| SkeletonGraph.LinkPointLinks | server/img_to_points.py:152-154 | one point's links keep every link and join it to its predecessor both ways |
| SkeletonGraph.LinkSectionLinks | server/img_to_points.py:149-154 | after the first i points of a section each of them past the first is linked both ways to its predecessor |
| SkeletonGraph.LinkSectionsLinks | server/img_to_points.py:148-154 | after the first loop every consecutive pair of every section is linked both ways |
| SkeletonGraph.AddSections | server/img_to_points.py:147-154 | the vertex list is the sections concatenated in order; the adjacency is the fold `LinkSections`; consecutive points are linked both ways; the adjacency is symmetric |
| SkeletonGraph.KeepsJoined | server/img_to_points.py:156-161 | later appends never remove an endpoint join |
| SkeletonGraph.JoinPair | server/img_to_points.py:158-161 | two ends closer than 10 are linked both ways; otherwise nothing changes |
| SkeletonGraph.JoinEnds | server/img_to_points.py:158-161 | the adjacency is the fold over the four end pairs in `product` order; all of them closer than 10 are linked both ways |
| SkeletonGraph.JoinedStep | server/img_to_points.py:158-161 | one end pair keeps the earlier joins and adds its own |
| SkeletonGraph.EndsInFlatten | server/img_to_points.py:156-161 | section ends are vertices |
| SkeletonGraph.JoinSections | server/img_to_points.py:156-161 | the adjacency is the fold `JoinAll` over the pairs in `combinations` order; for every pair of sections, ends closer than 10 are joined both ways, and symmetry is kept |
| SkeletonGraph.JoinToLater | server/img_to_points.py:156-161 | section a is joined with every later section, in order, at all close ends |
| SkeletonGraph.JoinedBeforeStep | server/img_to_points.py:156-161 | joining with the next section keeps the earlier joins of section a and adds those with it |
| SkeletonGraph.BuildGraph | server/img_to_points.py:144-163 | vertices are the concatenation; the adjacency is `GraphOf` the sections: symmetric, within range, links consecutive points and joins close endpoints, and holds no other link |
| SkeletonGraph.LinearizedPoints | server/img_to_points.py:101-118 | a linearized section has at least two points, all from the section |
| SkeletonGraph.VertexOnSkeleton | server/img_to_points.py:138-163 | every graph vertex, swapped back, is an on-pixel of the skeleton |
| SkeletonGraph.MakeGraph | server/img_to_points.py:138-163 | the sections are the reordered walk of the skeleton, holding every on-pixel once, the walk placed as in `Sections.Sectionize`; each reduced section is their linearization at one common threshold in [0, 10], never empty, found in 1 to 100 bisection steps, with the point total equal to `pointsLimit` when it stopped early; vertices are the reduced sections in order and on-pixels of the skeleton; the adjacency is `GraphOf` them, symmetric with consecutive links and endpoint joins and nothing else |

## Left out

- `skeletonize` (OpenCV thinning): the model starts from a given boolean skeleton bitmap; `skeleton[x, y] > 0` is a `true` cell.
- `get_map`, `get_loss_matrix`, `fit_to_map`, `get_distance_miles`: they call osmnx; only the two miles-per-degree constants of `get_distance_miles` are used.
- `get_total_loss`: it sums Euclidean norms, which need square roots.
- The pygame loops in `server/visualizer.py` and the `__main__` demo of `server/img_to_points.py`: display code.
- `points_from_img`: an empty stub.
- Geolocation, `exportToBlob`, `coordinatize`, `atob`, `Blob` and `URL.createObjectURL` in `client/src/app/page.tsx`: browser and network I/O. They are abstracted as a `SubmitOutcome` (which stage threw, or the server reply plus an object-URL handle).
- Object-URL revocation and last-query-wins search: the code does neither.
- The missing `isSnap` dependency of `useCallback`: React closure behaviour.
- Floating point: all arithmetic is over reals, so rounding, `NaN` and `Infinity` are not modelled. Norms are compared as squared distances.
- DrawingPage.Page.SubmitDrawing: the discarded `newWaypoints` are computed only when the surface width and height are non-zero. JavaScript would divide by zero into `Infinity`/`NaN`; the value is never used either way.
- TextPoints.UpperChar: only ASCII letters are upper-cased. Python's Unicode case mapping of other letters is not modelled.
- Visualizer.ScalePoints: `int()` of an infinite or NaN product cannot arise over reals.
- Visualizer.ScaledAtMaximum: holds over exact reals only. In IEEE doubles `w / max * max` can round just below `w`, so `int()` yields `w - 1`: for `scale_points([(2.7142857142857144, 0.5)], 400)` the factor is 147.36842105263156 and the product 399.99999999999994, truncated to 399.
- Visualizer.ScalePointsFillsWindow: holds over exact reals only, for the same reason; the example above never reaches 400.
- Sections.Sectionize: a skeleton pixel with a positive value is a `true` cell; non-binary pixel values are not modelled.
- SkeletonGraph.BuildGraph: requires non-empty sections whenever there are two or more. The source would raise IndexError on an empty one, but `MakeGraph` never passes one.
- SkeletonGraph.MakeGraph: also returns the walked, reordered and reduced sections, the walk's parents and ranks, the threshold and the number of bisection steps as ghost values so that its contract can name them.
- Linearize.ReduceSections: the threshold and bounds are ghost outputs; the contract does not state how close the point total gets to the limit after 100 steps.
