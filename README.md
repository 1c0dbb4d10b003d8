# Kolam analysis core, modelled in Dafny

A kolam is a drawing of lines looped around a grid of dots (pulli). The
backend's analysis core takes a photograph of one through three steps.

1. **Dot detection** (`image_processor.py`) runs a three-stage cascade.
   - Hough circles with a dark centre come first.
   - If fewer than five dots were found, round contours are added.
   - If fewer than three dots are then held, blob keypoints are added.
   - A contour or blob dot is appended only when no dot already held lies within 10 pixels of it on both axes.
2. **Graph building** (`KolamAnalyzer.build_graph`) makes one graph node per dot. For every "on" pixel of the binarised line image, it joins the two dots nearest that pixel. A `Line` is drawn the first time each edge appears.
3. **Pattern analysis** (`KolamAnalyzer.analyze_pattern`) fills in the pattern's `AnalysisResult`:
   - loops, as the size of a cycle basis;
   - connectivity;
   - the Eulerian test: at most two odd-degree nodes;
   - the dot and line counts;
   - the mirror-symmetry score about x = 0;
   - the 180-degree rotational fold about the centroid;
   - a grid label ("C x R grid", "N columns", "N rows" or "Irregular");
   - a regional style, chosen by an ordered rule list over those fields.

The Dafny modules follow the source files.

- `models.dfy` (module `Models`):
  - `Dot`, `Line` and `AnalysisResult` are datatypes. `DefaultAnalysis` holds the defaults of `AnalysisResult`; `Dot` and `Line` have none.
  - `Score` is the symmetry score as the pair matched / total.
  - `KolamPattern` is a class whose fields the analyzer updates in place.
- `graphs.dfy` (`Graphs`) is the undirected graph the analyzer uses:
  - node positions and a set of normalised edges;
  - reachability by walks, connected components and the cycle rank;
  - degrees and the handshake lemma;
  - worklist methods that compute a component and count components.
- `symmetry.dfy` (`Symmetry`): `calculate_symmetry_score` and `detect_rotational_symmetry`.
- `grid.dfy` (`Grid`): `detect_grid_pattern`, including its decimal rendering of the counts.
- `region.dfy` (`Region`): `detect_region` and its lower-cased substring tests.
- `analyzer.dfy` (`Analyzer`):
  - the `KolamAnalyzer` class with `BuildGraph` and `AnalyzePattern`;
  - the pixel scan;
  - the nearest-pair choice;
  - what the resulting edges, lines and analysis record mean.
- `image_processor.dfy` (`ImageProcessor`):
  - the `detect_dots` cascade as a method with three loops;
  - `DetectDotsSpec`, the reference function it is proved against;
  - the `preprocess_image` guard.

A few points about what the code does, stated outright:

- **Dot detector.** The Hough stage keeps a circle when the grey value at its centre is below 100. The contour stage runs when fewer than five Hough dots were found. The blob stage runs when fewer than three dots are held after that. A contour or blob candidate is dropped when a held dot lies within 10 pixels of it on both axes. There is no further clustering or validation step.
- **Rule 1 of the region rules.** It tests whether the lower-cased grid label contains "irregular". `Region.RegionByLabel` proves that this is the same as the label's kind being Irregular, for every label the grid detector produces.
- **Graph builder.** Every on pixel adds the edge between its two nearest dots. No edge is ever removed.
- **One-dot patterns.** Their metrics are computed like any other pattern's; `Analyzer.SingleDotAnalysis` shows the result.

Throughout the table, `analyzer.py`, `image_processor.py` and `models.py` are in `backend/app/kolam_analysis/`.

## Model

| member | source | states |
|---|---|---|
| Models.KolamPattern.constructor | backend/app/kolam_analysis/models.py:21-40 | a new pattern has the given dots, no lines, an empty graph and the default analysis record (0, 0, 0, "N/A", false, 0.0, 1, "N/A", "N/A") |
| Models.AtLeastMeansValue | backend/app/kolam_analysis/analyzer.py:175-183 | the integer threshold test on matched / total agrees with comparing the score's real value against num / den |
| Graphs.AddNode | backend/app/kolam_analysis/analyzer.py:17-20 | adding a node appends its position at the next index, keeps the edges and keeps the graph well formed |
| Graphs.AddEdge | backend/app/kolam_analysis/analyzer.py:36-38 | after adding edge (a, b), the pair is joined in both directions, every other pair is joined exactly as before, and positions are unchanged |
| Graphs.ReachableFrom | backend/app/kolam_analysis/analyzer.py:52 | the worklist search returns exactly the set of nodes reachable by a walk from s |
| Graphs.CountComponents | backend/app/kolam_analysis/analyzer.py:51-52 | the count equals the number of distinct components of the graph |
| Graphs.ConnectedIffOneComponent | backend/app/kolam_analysis/analyzer.py:52 | a non-empty graph is connected (every node reaches every node) if and only if it has exactly one component |
| Graphs.OddNodesEven | backend/app/kolam_analysis/analyzer.py:53-55 | handshake lemma: every well-formed graph has an even number of odd-degree nodes |
| Symmetry.LastAt | backend/app/kolam_analysis/analyzer.py:91-97 | the node kept for a position is the highest-indexed node at that position; none is kept exactly when no node is there |
| Symmetry.FindReflectedNodes | backend/app/kolam_analysis/analyzer.py:91-97 | one scan over the nodes finds, for both reflected positions, the last node at each |
| Symmetry.CalculateSymmetryScore | backend/app/kolam_analysis/analyzer.py:70-103 | the edge loop returns 0 / 0 without dots or edges, else the number of edges whose reflected end nodes exist and are joined, over the number of edges |
| Symmetry.ScoreBounds | backend/app/kolam_analysis/analyzer.py:76-103 | the matched count never exceeds the total, so the score lies between 0.0 and 1.0 |
| Symmetry.SymmetryNeedsZeroX | backend/app/kolam_analysis/analyzer.py:84-101 | with non-negative image coordinates, a matched edge has both ends on x = 0 |
| Symmetry.MirroredIffOnAxis | backend/app/kolam_analysis/analyzer.py:83-101 | with distinct non-negative positions, an edge is matched if and only if both its ends lie on x = 0 |
| Symmetry.NoAxisNoSymmetry | backend/app/kolam_analysis/analyzer.py:70-103 | a pattern in image coordinates with no node on x = 0 scores 0 |
| Symmetry.MirroredPairScoresOne | backend/app/kolam_analysis/analyzer.py:70-103 | two dots at (-10, 0) and (10, 0) joined by one edge score 1.0 |
| Symmetry.RotationalFold | backend/app/kolam_analysis/analyzer.py:105-131 | the fold is 1 or 2, and 1 for a pattern without dots |
| Symmetry.DetectRotationalSymmetry | backend/app/kolam_analysis/analyzer.py:105-131 | computing the rotated positions and then searching for a dot near each gives the reference fold |
| Symmetry.AxisTest | backend/app/kolam_analysis/analyzer.py:111-125 | on one axis, the integer test scaled by n says the same as abs(d - (2c - p)) < 5 with c the real centroid |
| Symmetry.ScaledTestIsCentroidTest | backend/app/kolam_analysis/analyzer.py:111-125 | for dot d against dot i's half-turn image, the scaled test holds exactly when the source's tolerance test on the real centroid holds on both axes |
| Symmetry.SingleDotFold | backend/app/kolam_analysis/analyzer.py:105-131 | a single dot is its own half-turn image, so its fold is 2 |
| Grid.InsertSorted | backend/app/kolam_analysis/analyzer.py:143-144 | inserting into an increasing sequence keeps it increasing; the values become the old ones plus x |
| Grid.SortedDistinct | backend/app/kolam_analysis/analyzer.py:143-144 | sorted(set(xs)) is strictly increasing and holds exactly the values of xs |
| Grid.RegularIsProgression | backend/app/kolam_analysis/analyzer.py:148-152 | the gaps take exactly one value if and only if the values form an arithmetic progression |
| Grid.Digits | backend/app/kolam_analysis/analyzer.py:155-159 | the rendered count is a non-empty string of decimal digits with no leading zero |
| Grid.DigitsRoundTrip | backend/app/kolam_analysis/analyzer.py:155-159 | the rendered count reads back as the count |
| Grid.GridDimensions | backend/app/kolam_analysis/analyzer.py:143-159 | the counts in a grid label are the numbers of distinct x and of distinct y coordinates, each at least 2; the count in "N columns" is the number of distinct x coordinates and the count in "N rows" the number of distinct y coordinates |
| Grid.EvenlySpacedIsGrid | backend/app/kolam_analysis/analyzer.py:146-155 | four or more dots whose distinct x values and distinct y values are each evenly spaced progressions are labelled a grid of those sizes |
| Grid.LatticeIsGrid | backend/app/kolam_analysis/analyzer.py:133-161 | dots on any C x R lattice with positive spacings are labelled a C x R grid |
| Grid.ThreeByFourGrid | backend/app/kolam_analysis/analyzer.py:154-155 | twelve dots 20 pixels apart in 3 columns and 4 rows are labelled "3x4 grid" |
| Grid.FewDotsIrregular | backend/app/kolam_analysis/analyzer.py:135-136 | fewer than four dots are always "Irregular" |
| Grid.JitteredIrregular | backend/app/kolam_analysis/analyzer.py:146-161 | four dots unevenly spaced on both axes are labelled "Irregular" |
| Grid.Classify | backend/app/kolam_analysis/analyzer.py:133-161 | a label other than Irregular needs at least four dots, and its counts are at least 2; `Grid.ClassifyCases` states when each of the four outcomes is chosen, both ways, and `Grid.GridDimensions` states, for every label, that its counts are the numbers of distinct x and y coordinates |
| Grid.ClassifyCases | backend/app/kolam_analysis/analyzer.py:133-161 | a grid label exactly when there are at least four dots, two or more distinct values on each axis and both axes are evenly spaced; "N columns" exactly when only x is evenly spaced; "N rows" exactly when only y is; "Irregular" exactly when there are too few dots or distinct values, or neither axis is evenly spaced |
| Grid.DetectGridPattern | backend/app/kolam_analysis/analyzer.py:133-161 | the label always replaces the "N/A" default, and reads "Irregular" exactly when the layout is irregular |
| Region.Decide | backend/app/kolam_analysis/analyzer.py:174-192 | the result is one of the five labels; Tamil Nadu exactly when rule 1 holds; undetermined exactly when no rule holds |
| Region.DetectRegion | backend/app/kolam_analysis/analyzer.py:163-192 | the region is always one of the five style labels, never the "N/A" default; `Region.RegionByLabel` reduces its substring tests to the label's kind |
| Region.DecorativeNotShadowed | backend/app/kolam_analysis/analyzer.py:174-180 | Karnataka is chosen exactly when its own rule holds, because rule 1 needs a score below 0.5 and rule 2 a score of at least 0.5 |
| Region.TextMentions | backend/app/kolam_analysis/analyzer.py:175-183 | a label from the grid detector contains "irregular" exactly when it is Irregular, and "grid" exactly when it is an R x C grid |
| Region.RegionByLabel | backend/app/kolam_analysis/analyzer.py:169-184 | on detector-produced labels, the substring tests of rules 1 and 3 are tests of the label's kind |
| Region.GeometricNotShadowed | backend/app/kolam_analysis/analyzer.py:174-184 | with a detector-produced label, Andhra Pradesh is chosen exactly for a grid with score at least 0.3 where the Karnataka rule fails |
| Analyzer.OnPixels | backend/app/kolam_analysis/analyzer.py:23-24 | the scan lists exactly the positive pixels, once each, in row-major order |
| Analyzer.NearestTwo | backend/app/kolam_analysis/analyzer.py:29-34 | one pass finds two different dots: a nearest to the pixel, and b nearest among the rest |
| Analyzer.NearestPairUnique | backend/app/kolam_analysis/analyzer.py:34 | any two valid choices of the two nearest dots differ only between equally distant dots |
| Analyzer.EdgeSetMembers | backend/app/kolam_analysis/analyzer.py:29-38 | an edge is in the graph exactly when some pixel's pick joins its two ends |
| Analyzer.EdgesFromPixels | backend/app/kolam_analysis/analyzer.py:29-38 | every edge joins two existing dots that are the nearest pair of some line pixel |
| Analyzer.FirstNewDistinct | backend/app/kolam_analysis/analyzer.py:36-41 | no two drawn lines join the same pair of dots |
| Analyzer.FirstNewCovers | backend/app/kolam_analysis/analyzer.py:36-41 | together, the drawn lines join every edge of the graph |
| Analyzer.FirstNewCount | backend/app/kolam_analysis/analyzer.py:36-41 | as many lines are drawn as the graph has edges |
| Analyzer.LinesMatchEdges | backend/app/kolam_analysis/analyzer.py:36-41 | the lines stand one for one for the edges: distinct, covering, and as many |
| Analyzer.ConnectNearest | backend/app/kolam_analysis/analyzer.py:29-41 | one pixel step joins the pixel's nearest pair, and appends its line only if the edge was not already there |
| Analyzer.RegionIgnoresRegionField | backend/app/kolam_analysis/analyzer.py:163-169 | the region rules read the counts, score, loops and grid label, never the region field |
| Analyzer.KolamAnalyzer.constructor | backend/app/kolam_analysis/analyzer.py:8-9 | the analyzer keeps the image shape, one extent per axis |
| Analyzer.KolamAnalyzer.BuildGraph | backend/app/kolam_analysis/analyzer.py:11-42 | see the note below the table |
| Analyzer.KolamAnalyzer.AnalyzePattern | backend/app/kolam_analysis/analyzer.py:44-68 | without dots or nodes, the pattern is unchanged; otherwise only the analysis changes, and it becomes the measured record with the region chosen from it |
| Analyzer.EulerTestZeroOrTwo | backend/app/kolam_analysis/analyzer.py:53-55 | "at most two odd-degree nodes" holds exactly when there are zero or two |
| Analyzer.ExpectedFields | backend/app/kolam_analysis/analyzer.py:50-66 | see the note below the table |
| Analyzer.SingleDotAnalysis | backend/app/kolam_analysis/analyzer.py:44-68 | one dot and no lines analyse to 1 dot, 0 lines, 0 loops, Connected, Eulerian, score 0, fold 2, Irregular, Tamil Nadu |
| Analyzer.OutlinePick | backend/app/kolam_analysis/analyzer.py:29-34 | for four dots on the corners of a square, the nearest pair of each pixel of the outline is a side; the middle pixel of a side picks that side, and a corner pixel picks one of its two sides |
| Analyzer.SquareOutlineDrawn | backend/app/kolam_analysis/analyzer.py:18-42 | over the square's outline image, every run of the pixel loop, whatever its tie-breaks, joins exactly the four sides and draws four lines |
| Analyzer.AnalyzeSquare | backend/app/kolam_analysis/analyzer.py:7-68 | `build_graph` then `analyze_pattern` on the square's dots and outline give 4 dots, 4 lines, 1 loop, Connected, Eulerian |
| Analyzer.StarNotEulerian | backend/app/kolam_analysis/analyzer.py:53-55 | a centre joined to three leaves has four odd-degree nodes and fails the Eulerian test |
| Analyzer.EulerTestIgnoresConnectivity | backend/app/kolam_analysis/analyzer.py:52-55 | two separate triangles pass the Eulerian test while being "Disconnected" |
| ImageProcessor.Trunc | backend/app/kolam_analysis/image_processor.py:57-58 | int() drops the fractional part toward zero, for either sign |
| ImageProcessor.PreprocessImage | backend/app/kolam_analysis/image_processor.py:6-9 | the result is absent exactly when no image is given; that a present image is mapped through the binarisation is carried by the body, not stated in the contract |
| ImageProcessor.DetectDots | backend/app/kolam_analysis/image_processor.py:20-89 | the three loops give exactly the reference cascade `DetectDotsSpec` |
| ImageProcessor.NoImageNoDots | backend/app/kolam_analysis/image_processor.py:22-23 | no image, or an empty one, gives no dots |
| ImageProcessor.HoughMembers | backend/app/kolam_analysis/image_processor.py:34-41 | a circle gives a dot exactly when its centre intensity is below 100; the dot keeps the circle's centre and radius; there are exactly as many dots as dark circles, so none is de-duplicated |
| ImageProcessor.AppendKeepsPrefix | backend/app/kolam_analysis/image_processor.py:59-61 | the deduplicating append never removes or reorders held dots, and adds at most one dot per candidate |
| ImageProcessor.AppendFromCandidates | backend/app/kolam_analysis/image_processor.py:59-61 | every appended dot is one of the candidates |
| ImageProcessor.AppendSeparated | backend/app/kolam_analysis/image_processor.py:59-61 | no appended dot is within 10 pixels, on both axes, of any dot before it |
| ImageProcessor.AppendCovers | backend/app/kolam_analysis/image_processor.py:59-61 | every candidate ends up within 10 pixels of some held dot |
| ImageProcessor.StagesAppendOnly | backend/app/kolam_analysis/image_processor.py:33-89 | the Hough dots are a prefix of the dots after the contour stage, which are a prefix of the result |
| ImageProcessor.StageGuards | backend/app/kolam_analysis/image_processor.py:44-64 | five Hough dots skip the contour stage; three dots held after it skip the blob stage |
| ImageProcessor.ContourCandidatesRound | backend/app/kolam_analysis/image_processor.py:48-61 | every contour candidate comes from a contour that passes the area, perimeter, circularity and moment tests, and has radius 5 |
| ImageProcessor.ContourStage | backend/app/kolam_analysis/image_processor.py:43-61 | the contour stage adds only round contours' centroids, with radius 5 and each apart from earlier dots, and leaves every round centroid near some dot |
| ImageProcessor.BlobCandidatesExact | backend/app/kolam_analysis/image_processor.py:83-87 | the blob candidates are the keypoints' truncated centres with radius int(size / 2), in order |
| ImageProcessor.BlobStage | backend/app/kolam_analysis/image_processor.py:63-87 | the blob stage adds only keypoint dots, each apart from earlier dots, and leaves every keypoint centre near some dot |

Notes on two rows:

- **`Analyzer.KolamAnalyzer.BuildGraph`.** It returns a fresh pattern over the dots with one node per dot. With fewer than two dots there are no edges and no lines. Otherwise, for each on pixel in scan order:
  - the pick is a nearest pair of that pixel;
  - the edges are exactly the joined pairs;
  - the lines are those of the picks that added a new edge.
- **`Analyzer.ExpectedFields`.** The analysis fields mean the following:
  - the counts are the dot and line counts;
  - loops equals |E| - |V| + the number of components;
  - "Connected" is set exactly when there is one component;
  - the Eulerian flag is set exactly when there are zero or two odd-degree nodes;
  - the score is in [0, 1];
  - the fold is 1 or 2;
  - the region is one of the five labels.

## Left out

- Floating point.
  - The symmetry score is the pair matched / total, with its real value in `Score.Value`. The thresholds 0.5 and 0.3 are exact integer comparisons (`Models.AtLeastMeansValue`).
  - The rotational test is scaled by the dot count to stay in integers. It is proved equal to the real-centroid test (`Symmetry.ScaledTestIsCentroidTest`); float rounding in `np.mean` is not modelled.
  - `round(d, 1)` on the integer gaps of `detect_grid_pattern` is the identity, so it is left out.
  - Distances are compared as squared integers, which order the dots as `cdist` does.
  - The contour centroid `m10 / m00` and the keypoint coordinates are exact reals before truncation; float rounding of these quotients ahead of `int()` is not modelled.
- OpenCV.
  - `cvtColor`, `GaussianBlur`, `adaptiveThreshold`, `HoughCircles`, `threshold`, `findContours`, `contourArea`, `arcLength`, `moments` and `SimpleBlobDetector` are library calls. Their outputs are inputs to the model: circles with their centre intensity, contours with area, perimeter, circularity and moments, and keypoints.
  - The `uint16` rounding of the circles happens before the model: circles arrive with natural-number centres and radii.
  - `circles is None` is the empty sequence.
  - An out-of-range centre index into the grey image is not modelled.
- `PreprocessImage` models only the `None` guard; the binarisation is a function parameter.
- networkx.
  - `cycle_basis` is modelled by its size, the cycle rank |E| - |V| + components; the basis itself is not built.
  - `is_connected` is modelled by walks.
  - `is_connected` raises on a graph without nodes; `analyze_pattern` never reaches that call with one, thanks to its guard.
- Exceptions. The `try`/`except` around the graph metrics, and its `print`, are not modelled: the metrics are total functions of the graph.
- `Analyzer.NearestTwo`: the tie-break of `np.argsort` among equally distant dots is left open. The contract states the nearest-pair property that any tie-break satisfies, and `BuildGraph` is specified over whatever pairs were picked.
- The binarised line image is a sequence of integer rows. NumPy's array layout and dtype are not modelled.
- `Region.Lower` maps only the ASCII letters A to Z. Python's full Unicode `lower()` is not modelled; the detector's labels are ASCII.
- `AnalyzePattern` builds the new analysis record as a value and stores it once. The source assigns the fields one by one on a shared record. No other object holds that record, so the order of the writes is not observable; aliasing of the record is not modelled.
- `Analyzer.KolamAnalyzer.constructor`: the image shape is kept as a sequence of extents, one per axis, as NumPy's `shape` tuple gives them (three for the colour image the vision service passes). No operation reads it, as in the source.
- `Analyzer.ExpectedFields` states the Eulerian flag as the source computes it, from the degrees alone. It does not claim an Euler path exists; `Analyzer.EulerTestIgnoresConnectivity` shows a disconnected graph that passes the test.
- The cycle rank is not proved non-negative.
- Integer widths: dot coordinates are unbounded integers. NumPy's `int64` overflow is not modelled.
- The API routes, the AI and vision services and the frontend are not part of this model.
