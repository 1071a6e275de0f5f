# Contour closing and USGS contour ingestion, in Dafny

This project models two parts of a tool that turns USGS elevation-contour data into an SVG map.

The first part is the **contour closer** (`contour_utils.dfy`, module `ContourUtils`). A contour that leaves the map's bounding box is an open line whose two ends lie on the box boundary. The closer classifies each end by the box edge it lies on, within a tolerance `eps`. It then walks the edges in the fixed cyclic order N, W, S, E, appending box corners until it reaches the edge of the first point, and finally appends the first point.

The second part is the **contour ingestion** (`topo_contours.dfy`, module `TopoContours`):

- it builds one contour per feature of a file, with the id `<Permanent_Identifier>_<id>`;
- it reverses the contours whose id contains one of a hand-picked list of segment ids;
- it groups the contours by elevation;
- it merges the groupings of several files, concatenating the lists under each elevation in file order.

The closer is a class whose fields (the box and `eps`) are set once by the constructor. Closing itself is a method with the corner-walk loop. That method is proved equal to `CloseSpec`, a closed-form function. The properties of closing are proved as lemmas about `CloseSpec`. The ingestion loops (`CheckId`, `GetTopoContours`, `CombineDicts`) are methods proved against the functions `ShouldFlip`, `Grouped` and `Concatenated`.

The exceptions the code raises are values of a `Result` datatype:

- `EmptyPoints`: `points[0]` on an empty list.
- `ShortCoordinate`: `pt[1]` on a short tuple.
- `NotOnBoundary`: `get_point_edge` finds no edge.
- `ZeroDivision`: `winding_dir_order` on two points with the same coordinate.
- `EmptyGeometry`: `coordinates[0]` on a feature without lines.

Three behaviours of the code are kept as written:

- **Two ends on one edge always close directly.** `winding_dir_order` returns ±1.0, and `_close_contour` tests that value for truth. So a contour whose two ends lie on one edge is closed by appending its first point, whichever way the ends wind (`SameEdgeClosesDirectly`). When the two ends have the same coordinate along the edge, the division in `winding_dir_order` fails instead.
- **The corner of the last point's edge is appended twice.** `_close_contour` appends it once before the corner loop, and the loop's first iteration appends it again before moving to the next edge (`CornerWalkAppends`, `NorthToEastExample`).
- **The bounding box is read in GDAL `GetExtent` order.** The constructor's docstring says `[lat_min, lat_max, lon_min, lon_max]`, but the code reads `(lon_min, lon_max, lat_min, lat_max)`, which is what its caller passes.

## Model

| member | source | states |
|---|---|---|
| ContourUtils.EdgeIdx | contour_utils.py:8-9 | the index of an edge is its position in the order N, W, S, E |
| ContourUtils.EdgeWindingDir | contour_utils.py:10 | each edge winds ±1: the first two edges of the order (N, W) negatively, the last two (S, E) positively |
| ContourUtils.GetNextEdge | contour_utils.py:39-42 | the next edge is the entry after the current one in the edge order, wrapped modulo 4, and differs from it |
| ContourUtils.NextEdgeCycle | contour_utils.py:8 | the successor relation is the cycle N → W → S → E → N |
| ContourUtils.NextEdgeBijective | contour_utils.py:39-42 | taking the next edge is a bijection: the previous-edge map inverts it on both sides |
| ContourUtils.FourStepsIdentity | contour_utils.py:39-42 | four steps return to the starting edge and one to three steps never do |
| ContourUtils.DistanceReaches | contour_utils.py:39-42 | walking forward, any edge is first reached after fewer than four steps, and not before |
| ContourUtils.EdgeCoord | contour_utils.py:23-28 | the coordinate along an edge alternates with the edge order: longitude for N and S, latitude for W and E |
| ContourUtils.WindingDirOrder | contour_utils.py:18-36 | fails with a division by zero exactly when the two coordinates along the edge are equal; otherwise ±1, and +1 exactly when the end lies after the start in the edge's winding direction |
| ContourUtils.ConvertToPts | contour_utils.py:44-45 | succeeds exactly when every tuple has at least two entries; point i is (lat = y, lon = x) of tuple i |
| ContourUtils.ConvertFromPts | contour_utils.py:47-48 | one `(lon, lat, 0.0)` tuple per point, in order |
| ContourUtils.ConvertRoundTrip | contour_utils.py:44-48 | writing points out and reading them back returns the same points |
| ContourUtils.ConvertBackKeepsXY | contour_utils.py:44-48 | reading a line and writing it back keeps x and y of every tuple and sets z to 0.0 |
| ContourUtils.ContourCloser.constructor | contour_utils.py:54-62 | the box is taken in the order lon_min, lon_max, lat_min, lat_max; `eps` is stored as given (default 1e-6) |
| ContourUtils.ContourCloser.PtEquals | contour_utils.py:65-67 | two points that are equal within `eps` differ by less than `eps` in each coordinate |
| ContourUtils.ContourCloser.PtEqualsIsDistanceBelowEps | contour_utils.py:65-67 | the squared-distance test agrees with comparing the Euclidean distance (any non-negative square root) with `eps` |
| ContourUtils.ContourCloser.PtEqualsReflexiveSymmetric | contour_utils.py:65-67 | with a positive tolerance a point equals itself; point equality is symmetric |
| ContourUtils.ContourCloser.GetPointEdge | contour_utils.py:69-81 | succeeds exactly when the point is within `eps` of some edge; the result is within `eps` and is the first such edge in test order N, S, W, E; otherwise the error names the point |
| ContourUtils.ContourCloser.NextBbCorner | contour_utils.py:83-93 | the corner returned for an edge lies on that edge and on the next edge in traversal order |
| ContourUtils.ContourCloser.CornerIsUnique | contour_utils.py:83-93 | the corner is the only point on both adjacent edge lines |
| ContourUtils.ContourCloser.CornerClassifiedNorthOrSouth | contour_utils.py:69-93 | with a box taller than `eps`, each corner is classified as N or S, because the latitude tests come first |
| ContourUtils.ContourCloser.WindingFollowsTraversal | contour_utils.py:83-93 | in a box with ordered bounds, walking an edge from its starting corner to its ending corner moves its coordinate in the direction of the edge's winding sign |
| ContourUtils.ContourCloser.EdgeCoordSeparates | contour_utils.py:23-28 | on the line of one edge, two points are equal exactly when their coordinates along the edge are equal |
| ContourUtils.ContourCloser.CornerRun | contour_utils.py:129-138 | the corners of k consecutive edges, element i being the corner of the edge i steps ahead |
| ContourUtils.ContourCloser.ClosePoints | contour_utils.py:103-138 | the loop's result equals the closed form `CloseSpec`, including each error path |
| ContourUtils.ContourCloser.CloseContour | contour_utils.py:95-101 | converts, closes and converts back; the output starts with the input's x and y in order, and every tuple has z = 0.0 |
| ContourUtils.ContourCloser.CloseExtendsInput | contour_utils.py:103-138 | closing only appends: the input points are a prefix of the result |
| ContourUtils.ContourCloser.CloseFailures | contour_utils.py:105-117 | an empty input fails; an open contour fails exactly when an end is off the boundary, or both ends are on one edge at the same coordinate; the first end is classified first |
| ContourUtils.ContourCloser.AlreadyClosedUnchanged | contour_utils.py:105-111 | a contour whose ends are equal within `eps` is returned unchanged, and so is every one-point contour when `eps > 0` |
| ContourUtils.ContourCloser.CloseEndsAtStart | contour_utils.py:116-134 | a contour that needed closing grows and ends with its first point |
| ContourUtils.ContourCloser.CloseIdempotent | contour_utils.py:103-138 | with `eps > 0`, closing a closed result changes nothing |
| ContourUtils.ContourCloser.SameEdgeClosesDirectly | contour_utils.py:116-121 | when both ends are on one edge and the winding order is defined, only the first point is appended, whichever way the ends wind; when they share the coordinate along the edge, closing fails with a division by zero |
| ContourUtils.ContourCloser.CornerWalkAppends | contour_utils.py:124-138 | ends on different edges get the last edge's corner twice, then the corners of the edges strictly between, then the first point: 3 to 5 points in all |
| ContourUtils.ContourCloser.AppendedAreCornersOrStart | contour_utils.py:120-137 | every appended point is the first point or a box corner |
| ContourUtils.ContourCloser.NorthToEastExample | contour_utils.py:103-138 | in the 0..10 box, a contour from (10, 3) on N to (7, 10) on E gets (10, 10), (10, 10), (10, 3) |
| TopoContours.Contour.Reverse | usgs_gdb_to_topo_svg.py:121-123 | reversing keeps id and elevation and reverses the points element by element |
| TopoContours.ReverseSeq | usgs_gdb_to_topo_svg.py:123 | element i of the result is element n-1-i of the input |
| TopoContours.ReverseSeqInvolution | usgs_gdb_to_topo_svg.py:123 | reversing twice gives the original points back |
| TopoContours.SegmentsToFlipContents | usgs_gdb_to_topo_svg.py:35-87 | sample memberships: the two long ids at the head of the list and the short ids "8525de_15" and "57f876_115" are in the set of segments to flip (the set's size, 32, is not stated) |
| TopoContours.CommentedOutIdsNotListed | usgs_gdb_to_topo_svg.py:35-87 | none of the nine ids left commented out in the configuration (lines 39, 67 and 80-86) is in the set of segments to flip |
| TopoContours.CheckId | usgs_gdb_to_topo_svg.py:90-94 | returns true exactly when some listed segment id occurs as a substring of the contour id |
| TopoContours.FlipSelectsExtendedIds | usgs_gdb_to_topo_svg.py:90-94 | selection is by substring, so a listed id also selects longer ids that contain it |
| TopoContours.NatToDecimal | usgs_gdb_to_topo_svg.py:117 | the rendering of a natural number is a non-empty string of decimal digits with no leading zero, and reading the digits back gives the number |
| TopoContours.IntToDecimal | usgs_gdb_to_topo_svg.py:117 | `str(i)` is non-empty and starts with '-' exactly when `i` is negative; every character after the optional sign, the first included, is a digit, and there is no leading zero after the sign unless the rendering is "0" |
| TopoContours.ParseIntOfDecimal | usgs_gdb_to_topo_svg.py:117 | reading back `str(i)` gives `i`, including negative ids |
| TopoContours.ContourId | usgs_gdb_to_topo_svg.py:117 | the id starts with the permanent identifier followed by '_', ends with `str(id)`, and has no underscore after that first '_' |
| TopoContours.ContourIdInjective | usgs_gdb_to_topo_svg.py:115-117 | two features get the same contour id only when both their permanent identifiers and their ids agree |
| TopoContours.FeatureContour | usgs_gdb_to_topo_svg.py:113-123 | a feature fails exactly when it has no line (`EmptyGeometry`) or a tuple of its first line is short (`ShortCoordinate`); otherwise the contour has the feature's contour id, its elevation and one point per tuple of the first line |
| TopoContours.FeatureContourShape | usgs_gdb_to_topo_svg.py:118-123 | the contour's points are the first line's tuples swapped into (lat, lon), reversed when the id is to be flipped |
| TopoContours.ContourResults | usgs_gdb_to_topo_svg.py:112-123 | one conversion result per feature, in feature order |
| TopoContours.CollectPointwise | usgs_gdb_to_topo_svg.py:112-124 | a loop that stops at the first error succeeds exactly when every step does, and then keeps every value in place |
| TopoContours.CollectFirstFailure | usgs_gdb_to_topo_svg.py:112-124 | a failed loop carries the error of the first failing step, and every earlier step succeeded |
| TopoContours.CollectPrefixFailure | usgs_gdb_to_topo_svg.py:112-124 | once a step fails after a successful prefix, the whole loop fails with that error |
| TopoContours.ContourResultsPrefix | usgs_gdb_to_topo_svg.py:112 | the results of a prefix of the features are the prefix of the results |
| TopoContours.FeatureContoursPointwise | usgs_gdb_to_topo_svg.py:112-124 | all contours are built exactly when every feature converts, one per feature in feature order |
| TopoContours.FeatureContoursFirstFailure | usgs_gdb_to_topo_svg.py:112-124 | a failure is the error of the first feature that does not convert |
| TopoContours.PrefixFailureIsFinal | usgs_gdb_to_topo_svg.py:112-119 | the first failing feature decides the error of the whole file |
| TopoContours.FeatureContoursSnoc | usgs_gdb_to_topo_svg.py:112-124 | one more converting feature extends the contours by its contour |
| TopoContours.ContourElevations | usgs_gdb_to_topo_svg.py:112-124 | each built contour has the elevation of its feature |
| TopoContours.BucketMembers | usgs_gdb_to_topo_svg.py:124 | the list under an elevation holds exactly the contours of that elevation |
| TopoContours.BucketConcat | usgs_gdb_to_topo_svg.py:124 | appending keeps the input order within each elevation's list |
| TopoContours.BucketOfAbsentElevation | usgs_gdb_to_topo_svg.py:110 | an elevation that does not occur has no contours |
| TopoContours.GroupedSnoc | usgs_gdb_to_topo_svg.py:110-124 | adding one contour appends it to its elevation's list, creating the list when missing |
| TopoContours.GetTopoContours | usgs_gdb_to_topo_svg.py:108-125 | fails exactly when some feature cannot be converted, with the first such error; otherwise the dictionary groups the contours by elevation in feature order, and its keys are the features' elevations |
| TopoContours.GroupedKeys | usgs_gdb_to_topo_svg.py:108-125 | the elevations of the built contours are the elevations of the features |
| TopoContours.AllKeysMembers | usgs_gdb_to_topo_svg.py:172-177 | a key is merged exactly when some dictionary has it; a key no dictionary has gets nothing |
| TopoContours.ConcatenatedSnoc | usgs_gdb_to_topo_svg.py:174-176 | one more dictionary adds its keys and appends its list under each key |
| TopoContours.ConcatenatedAppend | usgs_gdb_to_topo_svg.py:172-177 | merging distributes over splitting the list of dictionaries |
| TopoContours.MergeStep | usgs_gdb_to_topo_svg.py:175-176 | extending one more key keeps the partial merge consistent |
| TopoContours.MergeInto | usgs_gdb_to_topo_svg.py:175-176 | every key of either dictionary is present, and its list is the accumulator's list followed by the dictionary's list |
| TopoContours.CombineDicts | usgs_gdb_to_topo_svg.py:172-177 | the keys are those of all inputs, and each key's list is the inputs' lists concatenated in input order |
| TopoContours.GroupedEach | usgs_gdb_to_topo_svg.py:163-165 | one grouping per file, in file order |
| TopoContours.CombineGroupedIsGroupedFlatten | usgs_gdb_to_topo_svg.py:163-179 | grouping each file and merging gives, under every elevation, the same list as grouping all files' contours at once |

## Left out

- Reading the GIS files through GDAL/OGR, the JSON export of features, SVG rendering, plotting and the Strava connection are not modelled. A feature is the record of the four fields the ingestion reads; a missing JSON key (`KeyError`) is not modelled.
- Floating point: coordinates are mathematical reals. `pt_equals` takes a square root; the model compares the squared distance with `eps * eps` instead, and `PtEqualsIsDistanceBelowEps` shows the two tests agree. Rounding is not modelled.
- WindingDirOrder: the Python result is the float ±1.0; it is modelled as the integer ±1.
- The "unrecognized edge" branches (contour_utils.py:29-30 and 92-93) cannot be reached, because an edge is one of four constructor values.
- `print` tracing in the closer and in the ingestion is not modelled.
- usgs_gdb_to_topo_svg.py imports `ContourCombiner`, `Contour`, `Bbox`, `combine_bboxes` and `debug_plot` from contour_utils.py, and calls a `close_contours` method of `ContourCloser` (usgs_gdb_to_topo_svg.py:183). None of these is defined in contour_utils.py as it stands, so none is part of this model. `Contour` is taken to be a record `{id, elevation, points}` whose `reverse` reverses `points`.
- A feature's geometry is assumed to be a MultiLineString, a list of lines. For a LineString geometry, `coordinates[0]` is a single point, and `pt[1]` on a number raises a `TypeError` (usgs_gdb_to_topo_svg.py:119). A `null` geometry or a `null` `Permanent_Identifier` also raises a `TypeError`. None of these errors is modelled.
- SegmentsToFlipContents: states sample memberships, not that the set holds exactly 32 ids, because proving 32 long string literals pairwise distinct exceeds the resource limit.
- Python iterates `SEGMENTS_TO_FLIP` in hash order. `CheckId` picks the next id arbitrarily, and its result does not depend on the order.
- Dictionary insertion order is not modelled: the groupings are maps, and the list under each key keeps its order.
- `combine_dicts` returns a `defaultdict`, and reading a missing key from it adds an empty list. That later behaviour is not modelled.
- Elevations are integers, following the `Dict[int, List[Contour]]` annotation of `get_topo_contours`.
- The `EPS = 1e-5` constant and the duplicate of `get_topo_contours` in test.py belong to the script's entry point and tests, and are not modelled.
- In the code, the inner loop of `combine_dicts` is written inline. Here it is the separate method `MergeInto`, with the same loop, so that its proof stays small.
