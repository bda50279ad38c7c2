# ColorNShapes core in Dafny

A model of the core of ColorNShapes, with proofs about that model. It covers two parts of the code.

**The SBEditor engine.**
- Geometry: `Vec2`, `Rect`, `Circle`, `Polygon`, `Line`/`Ray`/`Segment`, `Matrix3x3`, `BezierCurve` and `Color`.
- The pairwise tests in `Intersection.cpp`: overlap, contact normal and depth, and ray casts against circles, rects and convex polygons.
- The `SpatialTree`. Static shapes live in a median-partition tree, rebuilt from scratch. Dynamic shapes live in a uniform grid of hashed cells. The tree answers range, pick, ray-cast and intersection queries.
- Containers and buffers: `Option`, `LinearCache`, `Mesh`, `DynamicBatcher`, `TextureAtlas`, and the bookkeeping of the `StateManager` caches.

**The TXPacker texture packer.**
- The Guillotine, MaxRects and Skyline bin packers.
- The option parser.
- `internalPack`, which packs the images pass by pass: each pass uses fresh contexts over a bin of the maximum size and fills one texture.
- `computeImageSize` and the parsing of texture names.

Floating-point numbers are modelled as exact reals.

Value types are datatypes and pure functions. Objects whose fields the C++ code updates are classes, with `modifies` frames. The classes are `SpatialTree`, `LinearCache`, `Mesh`, `DynamicBatcher`, `StateManager` and the packers' contexts. Each method is proved against a specification function or a class invariant. The lemmas beside it state what the C++ code promises: round trips, preserved invariants, query soundness and completeness, and packings without overlap.

Most files hold one module, named after the C++ class or file it models. A few C++ files are split over several modules:
- `SpatialTree.cpp` over StaticTrees, StaticRayCasts, DynamicTables, DynamicIndex, DynamicGrid, QueryResults, SpatialQueries and SpatialTrees;
- `Intersection.cpp` over Intersections, Overlaps and RayCasts.

## Model

| member | source | states |
|---|---|---|
| Vectors.Sign | Sources/SBEditor/Utils.h:31-34 | `sign` is 0 exactly at 0, 1 exactly on positives and -1 exactly on negatives |
| Vectors.NonZeroHasPositiveLength | Sources/SBEditor/Vec2.h:41-43 | only the zero vector has squared length zero |
| Vectors.Rotated90 | Sources/SBEditor/Vec2.h:156-160 | the quarter turn is undone by the inverse turn |
| Vectors.QuarterTurn | Sources/SBEditor/Vec2.h:151-160 | the quarter turn keeps the length, is orthogonal to the vector and turns it counter-clockwise (positive cross product) |
| Vectors.QuarterTurnOfMultiple | Sources/SBEditor/Vec2.h:156-160 | the quarter turn of any multiple of a vector is orthogonal to it |
| Vectors.Lagrange | Sources/SBEditor/Vec2.h:81-85 | dot² + cross² = ‖a‖²·‖b‖², the identity the parallel test rests on |
| Vectors.ParallelIffCrossZero | Sources/SBEditor/Vec2.h:81-85 | `isParallelTo` (dot² − ‖a‖²‖b‖² == 0) holds exactly when the cross product is zero |
| Vectors.MultipleIsParallel | Sources/SBTest/Vec2Tests.cpp:39-47 | a multiple of a vector is parallel to it and its quarter turn is perpendicular to it |
| Vectors.MidwayIsBetween | Sources/SBEditor/Vec2.h:130-135 | a positive multiple of v1 + v2 of two non-parallel vectors is between them in either order and its negation is not |
| Vectors.CrossExamples | Sources/SBTest/Vec2Tests.cpp:27-37 | cross(right, up) > 0, cross(right, left) == 0, cross(right, down) < 0 |
| Vectors.MidwayExamples | Sources/SBTest/Vec2Tests.cpp:48-52 | (right + up) / 2 is between right and up in both orders and its negation is not |
| Vectors.OrderingIsLexicographic | Sources/SBEditor/Vec2.h:246-279 | `<`, `>`, `<=`, `>=` are the lexicographic strict order on (x, y), its converse and their reflexive closures; `<` is irreflexive, transitive and total on distinct vectors |
| Options.Empty | Sources/SBEditor/Option.h:23-29 | a default- or nullptr-constructed Option holds nothing |
| Options.Of | Sources/SBEditor/Option.h:30-37 | an Option constructed from a payload holds exactly it |
| Options.MoveConstruct | Sources/SBEditor/Option.h:47-58 | the new Option holds what the source held and the moved-from one is left empty |
| Options.AssignNull | Sources/SBEditor/Option.h:59-67 | assigning nullptr leaves the Option empty |
| Options.AssignValue | Sources/SBEditor/Option.h:68-86 | assigning a payload leaves the Option holding exactly it, whether or not it held one |
| Options.AssignCopy | Sources/SBEditor/Option.h:87-107 | after a copy assignment the target holds a payload exactly when the source does, and the same one |
| Options.AssignMove | Sources/SBEditor/Option.h:108-130 | after a move assignment the target holds what the source held and the source is empty |
| Options.Equal | Sources/SBEditor/Option.h:166-173 | two Options compare equal exactly when both are empty or both hold equal payloads |
| Options.NotEqual | Sources/SBEditor/Option.h:174-181 | `!=` is the negation of `==` |
| Options.EqualValue | Sources/SBEditor/Option.h:182-193 | an Option equals a payload exactly when it holds that payload |
| Options.EqualNullAsWritten | Sources/SBEditor/Option.h:207-218 | as written, `o == nullptr` is false for every Option |
| Options.NotEqualNullAsWritten | Sources/SBEditor/Option.h:219-230 | as written, `o != nullptr` is true for every Option |
| Options.IsNull | Sources/SBEditor/Option.h:207-218 | the comparison with nullptr as intended: true exactly for the empty Option |
| Options.EmptyIsNotNullAsWritten | Sources/SBEditor/Option.h:207-212 | an empty Option is null as intended but compares unequal to nullptr as written |
| Circles.MakeCircle | Sources/SBEditor/Circle.h:23-26 | the constructed circle has the given centre and radius |
| Circles.SetRadius | Sources/SBEditor/Circle.h:38-41 | `setRadius` changes the radius to the value and keeps the centre |
| Circles.SetDiameter | Sources/SBEditor/Circle.h:42-48 | after `setDiameter(d)` the centre is kept and `diameter()` reads back d |
| Circles.Bounds | Sources/SBEditor/Circle.h:55-57 | the bounds are the square centred on the centre reaching exactly the radius on each side |
| Circles.ContainsItself | Sources/SBEditor/Circle.h:63-67 | `containsCircle` is reflexive |
| Circles.ContainedCircle | Sources/SBEditor/Circle.h:59-67 | a contained circle is no larger than its container and its centre passes `containsPoint` |
| Lines.InverseLength | Sources/SBEditor/Vec2.h:38-47 | the factor `normalized` divides by is the reciprocal of the length for a non-zero vector |
| Lines.Normalized | Sources/SBEditor/Vec2.h:44-47 | normalising the zero vector gives the zero vector (a substitute for the NaN of single precision) |
| Lines.NormalizedRecovers | Sources/SBEditor/Vec2.h:44-47 | the normalised vector scaled by the length is the vector |
| Lines.NormalizedIsUnit | Sources/SBEditor/Vec2.h:44-47 | a normalised non-zero vector has length one |
| Lines.LineThrough | Sources/SBEditor/Line.h:23-28 | `Line(a, b)` starts at a |
| Lines.LineThroughDirection | Sources/SBEditor/Line.h:23-28 | the direction of `Line(a, b)` scaled by the distance from a to b leads from a to b |
| Lines.PerpendicularVector | Sources/SBEditor/Line.h:68-71 | `perpendicularVector` is orthogonal to the line's unit direction |
| Lines.MakeRay | Sources/SBEditor/Ray.h:23-28 | `Ray(p, d)` starts at p |
| Lines.MakeRayDirection | Sources/SBEditor/Ray.h:23-28 | the ray's direction, scaled by the length of the given direction, is the given direction |
| Rects.FromCenterSize | Sources/SBEditor/Rect.h:29-33 | `Rect(cx, cy, w, h)` has the given size and is centred on (cx, cy) |
| Rects.EdgesOfRect | Sources/SBEditor/Rect.h:120-131 | right − left is the width, top − bottom the height, the centre is midway between the edges, and a well-formed rect has left ≤ right and bottom ≤ top |
| Rects.SetWidth | Sources/SBEditor/Rect.h:108-111 | `setWidth` changes only the width |
| Rects.SetHeight | Sources/SBEditor/Rect.h:112-115 | `setHeight` changes only the height |
| Rects.SetSize | Sources/SBEditor/Rect.h:116-119 | `setSize` keeps the centre and sets the size |
| Rects.SetBounds | Sources/SBEditor/Rect.h:132-147 | `setBounds` orders each pair of bounds first, so the rect spans exactly from the smaller to the larger of each pair |
| Rects.WrapIndexAsWritten | Sources/SBEditor/Rect.h:160-167 | the wrapping as written lands in [0, count] and yields count itself for a negative multiple of count |
| Rects.WrapIndex | Sources/SBEditor/Rect.h:160-167 | the intended wrapping is the index modulo the count |
| Rects.Point | Sources/SBEditor/Rect.h:160-181 | `point(i, wrap)` is the corner i (mod 4 when wrapping), counter-clockwise from the bottom-right, and agrees with the code as written except at negative multiples of four |
| Rects.PointWrapMinusFour | Sources/SBEditor/Rect.h:163-167 | at index −4 with wrapping the code as written returns the bottom-left corner where index 0, the bottom-right, is meant |
| Rects.EdgeAt | Sources/SBEditor/Rect.h:182-215 | edge i runs from corner i to corner i + 1: right, top, left, bottom |
| Rects.NormalIsUnit | Sources/SBEditor/Rect.h:216-250 | every edge normal has unit length |
| Rects.NormalIsOutward | Sources/SBEditor/Rect.h:182-250 | normal i is perpendicular to edge i and no corner lies on its outer side |
| Rects.ContainmentFacts | Sources/SBEditor/Rect.h:263-273 | a rect contains its corners and itself; it contains another exactly when it contains that one's four corners; containment is transitive |
| Rects.GetIntersection | Sources/SBEditor/Rect.h:284-294 | `getIntersection` is none exactly when the overlap on an axis is negative (touching rects intersect); otherwise it is contained in both |
| Rects.IntersectionEdges | Sources/SBEditor/Rect.h:284-294 | the intersection spans from the innermost left and bottom edges to the innermost right and top edges |
| Rects.IntersectionIsCommonPart | Sources/SBEditor/Rect.h:284-294 | a point lies in both rects exactly when it lies in their intersection |
| Rects.GetUnion | Sources/SBEditor/Rect.h:295-301 | `getUnion` contains both rects |
| Rects.UnionIsSmallest | Sources/SBEditor/Rect.h:295-301 | every rect containing both contains their union |
| Rects.UnionEdges | Sources/SBEditor/Rect.h:295-301 | the union spans from the outermost left and bottom edges to the outermost right and top edges |
| Rects.StrictlyIntersectsIffNonDegenerate | Sources/SBEditor/Rect.h:251-254 | `strictlyIntersects` holds exactly when the intersection exists and is not degenerate; it is symmetric (also lines 302-313) |
| Rects.RectOrdering | Sources/SBEditor/Rect.h:314-349 | `<` is a strict total order on rects, `>` its converse, `>=` the converse of `<=` |
| Rects.FromPoints | Sources/SBEditor/Rect.h:34-52 | `Rect(points)` as intended: contains every point and each edge touches one of the points |
| Rects.ScanBounds | Sources/SBEditor/Rect.h:40-48 | the scan over the points only widens the running bounds, keeps every point inside and each bound at its start value or at a point |
| Rects.TopAsWritten | Sources/SBEditor/Rect.h:38-59 | as written, with every point below FLT_MIN the top edge is FLT_MIN, above every point |
| Rects.FromPointsNegative | Sources/SBEditor/Rect.h:38-52 | for two points below the origin the code as written puts the right edge at FLT_MIN while the tight bound is −1 |
| Polygons.PointWrapOutOfRange | Sources/SBEditor/Polygon.h:97-114 | as written, wrapping a negative multiple of the point count yields the point count, one past the last point |
| Polygons.Point | Sources/SBEditor/Polygon.h:97-114 | `point(i)` is point i without wrapping and point i mod n with it, and agrees with the code wherever the code's index is in range |
| Polygons.PointIsPeriodic | Sources/SBEditor/Polygon.h:97-114 | wrapped point access has period n |
| Polygons.EdgeCount | Sources/SBEditor/Polygon.cpp:112-119 | no edge for at most one point, n edges when closed, n − 1 when open |
| Polygons.EdgeAt | Sources/SBEditor/Polygon.cpp:136-139 | edge i runs from point i to the next one; the last edge of a closed polygon returns to point 0 |
| Polygons.EdgeWrapOutOfRange | Sources/SBEditor/Polygon.cpp:125-131 | as written, wrapping −edgeCount selects edge number edgeCount, out of range |
| Polygons.Edge | Sources/SBEditor/Polygon.cpp:121-140 | `edge(i, wrap)` is edge i mod edgeCount when wrapping and agrees with the code wherever its index is in range |
| Polygons.SignedArea | Sources/SBEditor/Polygon.cpp:42-60 | the shoelace loop computes the shoelace sum over all consecutive point pairs, halved, 0 for at most two points |
| Polygons.AreaOf | Sources/SBEditor/Polygon.cpp:62-64 | `area()` is the absolute value of the signed area |
| Polygons.OrderingOf | Sources/SBEditor/Polygon.cpp:388-394 | clockwise exactly when the signed area is negative, counter-clockwise exactly when it is positive, unknown exactly when the area is zero |
| Polygons.IsConvex | Sources/SBEditor/Polygon.cpp:210-242 | the turn-counting loop reports convexity exactly when there are at most three points or the turns are not of mixed sign |
| Polygons.NormalIsPerpendicular | Sources/SBEditor/Polygon.cpp:161-175 | each edge normal is perpendicular to its edge |
| Polygons.Normal | Sources/SBEditor/Polygon.cpp:142-178 | `normal(i, wrap)` is the normal of edge i mod edgeCount when wrapping, turned outward by the ordering |
| Polygons.NoSeparatingEdge | Sources/SBEditor/Polygon.cpp:357-366 | the edge loop returns true exactly when no edge has the point strictly on its outer side |
| Polygons.ContainsPoint | Sources/SBEditor/Polygon.cpp:354-367 | a convex polygon contains a point exactly when no edge separates it |
| Polygons.RectPolygon | Sources/SBEditor/Rect.cpp:14-16 | `Rect::toPolygon` lists the corners bottom-right, top-right, top-left, bottom-left and is closed |
| Polygons.RectPolygonArea | Sources/SBEditor/Rect.cpp:14-16 | the rect's polygon has the rect's area as signed area, so a non-degenerate one is counter-clockwise |
| Polygons.RectPolygonIsConvex | Sources/SBEditor/Rect.cpp:14-16 | the rect's polygon turns the same way at every corner, so it is convex |
| Polygons.Bounds | Sources/SBEditor/Polygon.cpp:180-202 | `bounds()` as intended: contains every point and each edge touches a point |
| Polygons.BoundsNegative | Sources/SBEditor/Polygon.cpp:186-187 | for a triangle below the origin the code as written puts the top at FLT_MIN while the tight bound is −1 |
| Polygons.Map | Sources/SBEditor/Polygon.h:136-151 | `map(f)` applies f to every point and keeps the count and the closed flag |
| Polygons.MapLaws | Sources/SBEditor/Polygon.h:136-151 | mapping the identity changes nothing; mapping twice is mapping the composition |
| Polygons.AsClosed | Sources/SBEditor/Polygon.h:153-158 | `asClosed` keeps the points and is closed |
| Polygons.AsOpened | Sources/SBEditor/Polygon.h:159-164 | `asOpened` keeps the points and is open |
| Polygons.CloseOpenRoundTrip | Sources/SBEditor/Polygon.h:153-164 | closing and opening only switch the flag, and closing never loses an edge |
| Polygons.EqualityIsValueEquality | Sources/SBEditor/Polygon.h:203-208 | `==` compares points and closed flag, `!=` is its negation |
| Polygons.SeqLessIsStrict | Sources/SBEditor/Polygon.h:209-220 | the lexicographic point-sequence order is a strict total order |
| Polygons.PolygonOrdering | Sources/SBEditor/Polygon.h:209-237 | `<` on polygons is a strict total order and `>` its converse |
| Polygons.Optimize | Sources/SBEditor/Polygon.cpp:13-40 | `optimize` keeps the closed flag and the first point, never lengthens the point list, keeps only original points, and leaves at most two distinct points alone |
| Colors.FromRGB | Sources/SBEditor/Color.cpp:153-163 | `fromRGB` gives the channels with alpha 1, not premultiplied |
| Colors.FromRGBA | Sources/SBEditor/Color.cpp:164-174 | `fromRGBA` gives exactly the four channels, not premultiplied |
| Colors.Trunc | Sources/SBEditor/Color.cpp:256-263 | the float-to-int cast truncates toward zero |
| Colors.PackedChannel | Sources/SBEditor/Color.cpp:256-263 | a packed channel is the low byte of the truncated product with 255 |
| Colors.FromPackedInRange | Sources/SBEditor/Color.cpp:175-188 | every channel unpacked from a 32-bit word lies in [0, 1] and the colour is not premultiplied |
| Colors.PackedChannelOfByte | Sources/SBEditor/Color.cpp:175-188 | a byte divided by 255 packs back to the same byte (also lines 256-263) |
| Colors.ChannelBack | Sources/SBEditor/Color.cpp:175-188 | each byte unpacked from a word packs back to the same byte (also lines 256-263) |
| Colors.PackUnpack | Sources/SBEditor/Color.cpp:175-188 | unpacking then packing reverses the byte order of the word: the two formats put red at opposite ends (also lines 256-263) |
| Colors.PackUnpackRed | Sources/SBEditor/Color.cpp:175-188 | 0xFF000000 (red when unpacked) packs to 0x000000FF (also lines 256-263) |
| Colors.ClampChannel | Sources/SBEditor/Color.cpp:286-307 | a clamped channel is in [0, 1], unchanged when already there, 0 below and 1 above |
| Colors.ClampedProperties | Sources/SBEditor/Color.cpp:286-313 | `clamped` puts every channel in [0, 1], keeps the flag, leaves an in-range colour unchanged and is idempotent |
| Colors.SnapChannelProperties | Sources/SBEditor/Color.cpp:264-285 | `snap` sets a channel within epsilon of 0 or 1 to exactly that, leaves others alone and moves none by more than epsilon |
| Colors.AeqZero | Sources/SBEditor/Color.cpp:339 | near zero means within epsilon of zero |
| Colors.PreMultiplied | Sources/SBEditor/Color.cpp:318-325 | `preMultiplied` is premultiplied and keeps alpha |
| Colors.NonPreMultiplied | Sources/SBEditor/Color.cpp:335-352 | `nonPreMultiplied` is not premultiplied and keeps alpha |
| Colors.PreMultipliedIdempotent | Sources/SBEditor/Color.cpp:318-325 | premultiplying twice is premultiplying once |
| Colors.RevertUndoesPreMultiply | Sources/SBEditor/Color.cpp:318-352 | reverting a premultiplication gives the colour back unless alpha is near zero |
| Colors.RevertKeepsNearTransparent | Sources/SBEditor/Color.cpp:339-342 | with alpha near zero, reverting keeps the premultiplied products and only clears the flag |
| Colors.Plus | Sources/SBEditor/Color.cpp:496-500 | channel-wise sum keeping the left operand's flag |
| Colors.Minus | Sources/SBEditor/Color.cpp:501-505 | channel-wise difference keeping the left operand's flag |
| Colors.Times | Sources/SBEditor/Color.cpp:506-510 | channel-wise product keeping the left operand's flag |
| Colors.Divided | Sources/SBEditor/Color.cpp:511-515 | channel-wise quotient keeping the left operand's flag |
| Colors.Scaled | Sources/SBEditor/Color.cpp:516-525 | scaling by a number keeps the flag |
| Colors.Negated | Sources/SBEditor/Color.cpp:531-532 | unary minus builds a fresh colour, so the flag is cleared |
| Colors.LerpEnds | Sources/SBEditor/Color.cpp:314-317 | `lerp` gives the first colour at 0 and the second one's channels at 1 |
| Colors.MinusUndoesPlus | Sources/SBEditor/Color.cpp:496-505 | subtracting what was added gives the colour back |
| Colors.OrderLaws | Sources/SBEditor/Color.cpp:414-491 | `<` is a strict total order on the channels, `>` its converse, `<=`/`>=` its reflexive forms, `!=` the negation of `==` |
| Colors.Color.constructor | Sources/SBEditor/Color.cpp:149-152 | a new colour is opaque black |
| Colors.Color.Clamp | Sources/SBEditor/Color.cpp:286-307 | `clamp()` replaces the colour by its clamped value |
| Colors.Color.Snap | Sources/SBEditor/Color.cpp:264-285 | `snap()` replaces the colour by its snapped value |
| Colors.Color.PreMultiply | Sources/SBEditor/Color.cpp:326-334 | `preMultiply()` replaces the colour by its premultiplied value |
| Colors.Color.RevertPreMultiply | Sources/SBEditor/Color.cpp:353-367 | `revertPreMultiply()` replaces the colour by its reverted value |
| Colors.Color.AddAssign | Sources/SBEditor/Color.cpp:372-378 | `+=` replaces the colour by the sum |
| Colors.Color.ScaleAssign | Sources/SBEditor/Color.cpp:400-406 | `*=` by a number replaces the colour by the scaled one |
| Beziers.SampleEnds | Sources/SBEditor/BezierCurve.h:33-40 | the curve passes through its first control point at 0 and its last at 1 |
| Beziers.SubdivideJoins | Sources/SBEditor/BezierCurve.h:41-60 | de Casteljau's halves start and end where the curve does, meet each other, and meet at the curve's midpoint sample |
| Beziers.PointCurveNeverFlat | Sources/SBEditor/BezierCurve.h:61-68 | a curve whose four points coincide is never straight (the distance from a zero-length line is NaN), nor are its halves, so rendering it needs a depth bound |
| Beziers.HalvingOf | Sources/SBEditor/BezierCurve.cpp:13-26 | the recursion tree of `renderCurve` is a tree over the given curve |
| Beziers.Points | Sources/SBEditor/BezierCurve.cpp:13-26 | each piece contributes at least its two end points |
| Beziers.PointsEnds | Sources/SBEditor/BezierCurve.cpp:13-26 | the points of a joined halving run from the first control point to the last |
| Beziers.HalvingJoined | Sources/SBEditor/BezierCurve.cpp:13-26 | the halves of every piece meet |
| Beziers.RenderedEnds | Sources/SBEditor/BezierCurve.cpp:13-26 | rendering gives at least two points, from the first control point to the last |
| Beziers.RenderCurve | Sources/SBEditor/BezierCurve.cpp:13-26 | `renderCurve` appends the rendered points of the curve to the shared vector |
| Beziers.ToPolygon | Sources/SBEditor/BezierCurve.cpp:27-37 | `toPolygon(quality)` renders with tolerance 1/quality; closed exactly when the curve ends where it starts, dropping the repeated point when more than two |
| Beziers.PrefixFlat | Sources/SBEditor/BezierCurve.cpp:38-62 | a prefix of a chain of renderable curves is one |
| Beziers.LeadingStarts | Sources/SBEditor/BezierCurve.cpp:38-62 | the leading part of a chain starts at its first curve's first point |
| Beziers.TraceEnds | Sources/SBEditor/BezierCurve.cpp:38-62 | a chain's trace runs from the first curve's first point to the last curve's last point |
| Beziers.TracePolygon | Sources/SBEditor/BezierCurve.cpp:56-61 | the trace's polygon is closed exactly when it ends where it starts with more than two points, and then drops the repeated point |
| Beziers.ChainStep | Sources/SBEditor/BezierCurve.cpp:44-53 | each loop step renders one more curve, dropping its last point unless it is the last curve |
| Beziers.CurvesToPolygon | Sources/SBEditor/BezierCurve.cpp:38-62 | `toPolygon(curves, quality)` is the polygon of the chain's trace |
| Beziers.ArrayToPolygon | Sources/SBEditor/BezierCurve.cpp:63-85 | `toPolygon(curves, count, quality)` is the polygon of the trace of the first count curves |
| Beziers.ChainClosedIff | Sources/SBEditor/BezierCurve.cpp:38-62 | a chain's polygon is closed exactly when the chain ends where it starts and has more than two points |
| Beziers.LessIsStrictOrder | Sources/SBEditor/BezierCurve.h:79-134 | `<` on curves is a strict total order |
| Matrices.Elements | Sources/SBEditor/Matrix3x3.h:19-36 | the nine stored elements, column by column |
| Matrices.Element | Sources/SBEditor/Matrix3x3.h:152-156 | `element(row, column)` reads `elements[column * 3 + row]`, the entry in that row and column |
| Matrices.FromElements | Sources/SBEditor/Matrix3x3.h:19-36 | the matrix whose stored elements are the given nine |
| Matrices.ElementsRoundTrip | Sources/SBEditor/Matrix3x3.h:19-36 | reading the elements back into a matrix gives the matrix |
| Matrices.SetTranslation | Sources/SBEditor/Matrix3x3.h:180-187 | `setTranslation` changes the translation column and nothing else |
| Matrices.IdentityIsNeutral | Sources/SBEditor/Matrix3x3.h:478-494 | the identity is neutral on both sides of the product (also Matrix3x3.cpp:12) |
| Matrices.ScaleByElements | Sources/SBEditor/Matrix3x3.h:495-528 | `m * s` multiplies each stored element by s |
| Matrices.MulScaleRight | Sources/SBEditor/Matrix3x3.h:478-511 | scaling the right factor scales the product |
| Matrices.MulScaleLeft | Sources/SBEditor/Matrix3x3.h:478-511 | scaling the left factor scales the product |
| Matrices.Transposed | Sources/SBEditor/Matrix3x3.h:275-287 | element (r, c) of the transpose is element (c, r) |
| Matrices.TransposeLaws | Sources/SBEditor/Matrix3x3.h:275-292 | transposing twice is the identity operation and the identity is its own transpose |
| Matrices.DeterminantOfTranslation | Sources/SBEditor/Matrix3x3.h:58-70 | a translation has determinant one (also lines 247-249) |
| Matrices.DeterminantOfScale | Sources/SBEditor/Matrix3x3.h:71-83 | a scale has the product of its factors as determinant (also lines 247-249) |
| Matrices.DeterminantOfTransposed | Sources/SBEditor/Matrix3x3.h:247-287 | transposing keeps the determinant |
| Matrices.AdjugateOnTheRight | Sources/SBEditor/Matrix3x3.h:250-263 | the matrix times the cofactor matrix built in `inverse()` is the determinant times the identity |
| Matrices.AdjugateOnTheLeft | Sources/SBEditor/Matrix3x3.h:250-263 | the cofactor matrix times the matrix is the determinant times the identity |
| Matrices.InverseOf | Sources/SBEditor/Matrix3x3.h:250-270 | for a non-zero determinant, the inverse is a two-sided inverse |
| Matrices.ScaledAdjugateIsInverse | Sources/SBEditor/Matrix3x3.h:250-270 | the adjugate scaled by one over the determinant is a two-sided inverse |
| Matrices.InverseOfTranslation | Sources/SBEditor/Matrix3x3.h:58-70 | the inverse of a translation translates back (also lines 250-270) |
| Matrices.InverseOfScale | Sources/SBEditor/Matrix3x3.h:71-83 | the inverse of a scale by non-zero factors divides by them (also lines 250-270) |
| Matrices.ScaleElementwise | Sources/SBEditor/Matrix3x3.h:266-268 | the element loop at the end of `inverse()` multiplies the whole matrix by the factor |
| Matrices.Inverse | Sources/SBEditor/Matrix3x3.h:250-273 | `inverse()` (and `invert()`) gives the inverse, a two-sided inverse of the matrix |
| Matrices.TransformedVector | Sources/SBEditor/Matrix3x3.h:339-349 | a vector is mapped by the linear part only: x times the x vector plus y times the y vector |
| Matrices.TransformedPoint | Sources/SBEditor/Matrix3x3.h:350-360 | a point is mapped by the linear part plus the translation |
| Matrices.TranslationAndScale | Sources/SBEditor/Matrix3x3.h:58-83 | a translation moves points by (tx, ty) and leaves vectors unchanged; a scale multiplies coordinates (also lines 339-360) |
| Matrices.TransformExamples | Sources/SBTest/Matrix3x3Tests.cpp:18-27 | the worked examples: translating by (1, 2) keeps the zero vector and moves the origin to (1, 2); scaling by (2, 3) maps (7, 5) to (14, 15) |
| Matrices.TransformComposition | Sources/SBEditor/Matrix3x3.h:355-360 | for an affine right factor, transforming a point by a product is transforming it by the right factor, then the left (also lines 478-494) |
| Matrices.VectorTransformComposition | Sources/SBEditor/Matrix3x3.h:344-349 | the same for vectors (also lines 478-494) |
| Matrices.InverseUndoesTransform | Sources/SBEditor/Matrix3x3.h:250-270 | an invertible affine transform followed by its inverse leaves points in place (also lines 355-360) |
| Matrices.TransformedPolygon | Sources/SBEditor/Matrix3x3.h:361-363 | every point of the polygon is transformed and the closed flag is kept |
| Matrices.TransformedSegment | Sources/SBEditor/Matrix3x3.h:389-401 | both end points of the segment are transformed |
| Matrices.TransformedRay | Sources/SBEditor/Matrix3x3.h:402-414 | the ray's origin is transformed as a point and its direction as a vector, normalised again |
| Matrices.TransformedCircle | Sources/SBEditor/Matrix3x3.h:364-376 | the centre is transformed and the radius is the distance from it to the transformed point one radius to the right |
| Matrices.TransformedRect | Sources/SBEditor/Matrix3x3.h:415-429 | `transformedRect` with tight bounds contains every transformed corner |
| Matrices.TranslatedRect | Sources/SBEditor/Matrix3x3.h:423-429 | translating a rect moves its centre and keeps its size |
| Matrices.TransformedRectBelowOrigin | Sources/SBEditor/Matrix3x3.h:423-429 | as written, a rect translated below the origin gets its top edge at FLT_MIN, while the tight top is the translated top (also Rect.h:58-59) |
| Shapes.KindOf | Sources/SBEditor/Shape.cpp:64-67 | the kind of a geometry is circle, rect or polygon exactly as the geometry is |
| Shapes.GeometryBounds | Sources/SBEditor/Shape.cpp:116-124 | the bounds of a rect geometry are the rect itself |
| Shapes.GeometryBoundsContain | Sources/SBEditor/Shape.cpp:116-124 | every point of a circle or polygon geometry lies inside its bounds |
| Shapes.CircleBoxed | Sources/SBEditor/Circle.h:55-62 | a point inside a circle lies inside the circle's bounds |
| Shapes.ProperBounds | Sources/SBEditor/Shape.cpp:116-124 | proper geometry has well-formed bounds |
| Shapes.Shape.FromCircle | Sources/SBEditor/Shape.cpp:31-45 | a new circle shape holds the circle, is static, has no parent and has every mask bit set |
| Shapes.Shape.FromRect | Sources/SBEditor/Shape.cpp:31-56 | a new rect shape holds the rect, is static, has no parent and has every mask bit set |
| Shapes.Shape.FromPolygon | Sources/SBEditor/Shape.cpp:31-63 | a new polygon shape holds the given convex polygon, is static, has no parent and has every mask bit set |
| Shapes.Shape.Geometry | Sources/SBEditor/Shape.cpp:64-82 | the geometry read from a shape has the shape's kind |
| Shapes.Shape.CircleOf | Sources/SBEditor/Shape.cpp:68-72 | `circle()` is available only on circle shapes and is their geometry |
| Shapes.Shape.RectOf | Sources/SBEditor/Shape.cpp:73-77 | `Rect()` is available only on rect shapes and is their geometry |
| Shapes.Shape.PolygonOf | Sources/SBEditor/Shape.cpp:78-82 | `Polygon()` is available only on polygon shapes and is their geometry |
| Shapes.Shape.Bounds | Sources/SBEditor/Shape.cpp:116-124 | `bounds()` of a rect shape is the rect itself |
| Shapes.Shape.BoundsContain | Sources/SBEditor/Shape.cpp:116-124 | every point of a circle or polygon shape lies inside its bounds |
| Shapes.Shape.ApplyTransform | Sources/SBEditor/Shape.cpp:83-91 | `applyTransform` transforms only the geometry the kind selects and keeps masks, flag and parent |
| Shapes.Shape.SetTypeMask | Sources/SBEditor/Shape.cpp:92-99 | `setTypeMask` is read back by `typeMask()` and changes nothing else |
| Shapes.Shape.SetCollisionMask | Sources/SBEditor/Shape.cpp:100-107 | `setCollisionMask` is read back by `collisionMask()` and changes nothing else |
| Shapes.Shape.SetDynamic | Sources/SBEditor/Shape.cpp:108-115 | `setDynamic` is read back by `isDynamic()` and changes nothing else |
| Shapes.Shape.SetParent | Sources/SBEditor/Shape.cpp:125-132 | `setParent` is read back by `parent()` and changes nothing else |
| Shapes.FreshShapeMatchesAnyMask | Sources/SBEditor/Shape.cpp:31-37 | a fresh shape's type mask shares a bit with every non-zero mask |
| Intersections.Contact | Sources/SBEditor/Intersection.cpp:278-280 | an `IntersectionInfo(normal, penetration)` is a non-empty contact with those fields |
| Intersections.CramerSolves | Sources/SBEditor/Intersection.cpp:21-42 | with a non-zero cross product, the two parameters solve p + t·da = q + u·db coordinate by coordinate |
| Intersections.CrossingOf | Sources/SBEditor/Intersection.cpp:21-42 | the crossing parameters reach the same point along both directions |
| Intersections.RayRay | Sources/SBEditor/Intersection.cpp:21-42 | `get(Ray, Ray)` finds nothing for parallel rays and otherwise finds a point exactly when the crossing lies ahead on both rays; the point is on both |
| Intersections.LineLine | Sources/SBEditor/Intersection.cpp:43-56 | `get(Line, Line)` finds nothing exactly for parallel lines, otherwise the point where both lines pass |
| Intersections.SampledPointIsOnRay | Sources/SBEditor/Intersection.cpp:57-60 | a point a non-negative step ahead on a ray passes `test(Ray, Vec2)` |
| Intersections.RayLine | Sources/SBEditor/Intersection.cpp:65-86 | `get(Ray, Line)` finds nothing for a parallel line and otherwise finds a point exactly when the crossing is ahead on the ray; the point is on both |
| Intersections.RaySegmentParallel | Sources/SBEditor/Intersection.cpp:87-116 | a ray parallel to a segment finds no point on it |
| Intersections.RaySegmentCrossing | Sources/SBEditor/Intersection.cpp:87-116 | otherwise it finds a point exactly when the crossing is ahead on the ray and within the segment's length, and the point is on both |
| Intersections.RaySegmentSnaps | Sources/SBEditor/Intersection.cpp:100-113 | snapping the crossing to the ray's origin or to a segment end replaces a parameter by the value it already has |
| Intersections.SegmentSegment | Sources/SBEditor/Intersection.cpp:117-143 | `get(LineSegment, LineSegment)` finds nothing for parallel segments, and otherwise finds a point exactly when the crossing is within both lengths |
| Intersections.StepIsOnSegment | Sources/SBEditor/Intersection.cpp:144-147 | a point within the length along a segment's direction passes `test(LineSegment, Vec2)` |
| Intersections.SegmentHitIsOnBoth | Sources/SBEditor/Intersection.cpp:117-147 | the point two segments report passes the point test of both |
| Intersections.RaySegmentHitIsOnSegment | Sources/SBEditor/Intersection.cpp:87-116 | the point a ray reports on a segment passes the segment's point test (also lines 144-147) |
| Intersections.TestRectRectIffCommonPoint | Sources/SBEditor/Intersection.cpp:283-298 | `test(Rect, Rect)` holds exactly when some point lies in both rects; touching counts |
| Intersections.TestCircleCircleSquared | Sources/SBEditor/Intersection.cpp:299-304 | `test(Circle, Circle)` holds exactly when the squared centre distance is at most the squared sum of the radii |
| Intersections.OnCircleIffRoot | Sources/SBEditor/Intersection.cpp:239-245 | the ray's quadratic vanishes exactly where the ray meets the circle's boundary |
| Intersections.RootsOrdered | Sources/SBEditor/Intersection.cpp:247-250 | the two roots are (−b ∓ √D) / 2a and the first is the smaller |
| Intersections.RootsAreTheZeros | Sources/SBEditor/Intersection.cpp:244-250 | with a positive discriminant the two roots are the only zeros |
| Intersections.RayCircleParameter | Sources/SBEditor/Intersection.cpp:244-267 | no hit when the discriminant is not positive (tangent rays do not count); otherwise the smallest non-negative root, and none when both roots are behind |
| Intersections.RayMeetsCircleAtRoots | Sources/SBEditor/Intersection.cpp:239-250 | the ray meets the circle's boundary exactly at the two roots |
| Intersections.RayCircle | Sources/SBEditor/Intersection.cpp:239-268 | `get(Ray, Circle)` is the point at that parameter, on the circle's boundary |
| Intersections.CircleCircle | Sources/SBEditor/Intersection.cpp:271-282 | `get(Circle, Circle)` is empty exactly when the test fails, and the penetration is the sum of the radii minus the centre distance |
| Intersections.CircleCircleNormal | Sources/SBEditor/Intersection.cpp:275-280 | for distinct centres the normal is the unit vector from b's centre towards a's |
| RayCasts.Nearest | Sources/SBEditor/Intersection.cpp:152-175 | the running distance starts at FLT_MAX and never exceeds it |
| RayCasts.NearestIsFirstClosest | Sources/SBEditor/Intersection.cpp:152-178 | the scan finds nothing exactly when no candidate is nearer than FLT_MAX; otherwise the first candidate at the least distance |
| RayCasts.NearestStep | Sources/SBEditor/Intersection.cpp:171-175 | each edge replaces the best hit exactly when it is strictly nearer |
| RayCasts.NearestOfMisses | Sources/SBEditor/Intersection.cpp:156-157 | with no candidate there is no hit |
| RayCasts.NearestOfSingle | Sources/SBEditor/Intersection.cpp:171-175 | a single candidate nearer than FLT_MAX is the hit |
| RayCasts.VerdictKeepsCrossings | Sources/SBEditor/Intersection.cpp:155-170 | a candidate is the edge crossing itself; only a corner crossing from outside whose reversed direction is not between the two normals is dropped |
| RayCasts.RayRect | Sources/SBEditor/Intersection.cpp:148-180 | `get(Ray, Rect)`: the edge loop returns the nearest kept crossing, with the neighbour normals taken cyclically |
| RayCasts.RectNeighbourAsWritten | Sources/SBEditor/Intersection.cpp:161-168 | as written, `normal(i - 1)` works by the rect's own wrapping, while `normal(i + 1)` is the next edge's only for i < 3 |
| RayCasts.RectCornerNeighbours | Sources/SBEditor/Intersection.cpp:161-168 | the wrapped neighbours are the edges sharing the corner (also Rect.h:194-250) |
| RayCasts.RightSideCrossings | Sources/SBEditor/Intersection.cpp:153-170 | an upward ray along a rect's right side from below crosses only the top edge at its start and the bottom edge at its end, from outside |
| RayCasts.RectCornerFinding | Sources/SBEditor/Intersection.cpp:166-170 | as written, that ray keeps its crossing with the bottom edge at the bottom-right corner, which the cyclic neighbour rejects |
| RayCasts.BottomRightNormals | Sources/SBEditor/Intersection.cpp:168 | at the last edge the code reads the bottom normal again instead of the right normal (also Rect.h:228-250) |
| RayCasts.BottomRightTurns | Sources/SBEditor/Vec2.h:130-135 | down is between down and down but not between down and right |
| RayCasts.RayPolygon | Sources/SBEditor/Intersection.cpp:366-398 | `get(Ray, Polygon)` on a convex polygon returns the nearest kept crossing, neighbour normals taken cyclically |
| RayCasts.PolygonEdgeStep | Sources/SBEditor/Intersection.cpp:372-396 | one loop pass gives the per-edge verdict, computing whether the origin is inside at most once |
| RayCasts.CyclicNeighbours | Sources/SBEditor/Intersection.cpp:379-386 | the cyclic neighbours are the indices `normal(i − 1, true)` and `normal(i + 1, true)` select |
| RayCasts.PolygonCornerNormals | Sources/SBEditor/Intersection.cpp:379-386 | the polygon cast's corner normals are those of the wrapped neighbours (also Polygon.cpp:142-178) |
| RayCasts.PolygonCornerEdges | Sources/SBEditor/Polygon.cpp:121-140 | in a closed polygon the cyclic neighbours are the edges sharing the corners |
| RayCasts.PolygonNeighbourFinding | Sources/SBEditor/Intersection.cpp:379-386 | as written the unwrapped `normal(i − 1)` at edge 0 and `normal(i + 1)` at the last edge are out of range, and the rect polygon with an upward ray along its right side reaches the latter (also Polygon.cpp:142-147) |
| RayCasts.BelowRightwardEdge | Sources/SBEditor/Polygon.cpp:354-367 | a point below a rightward edge of a counter-clockwise polygon is outside it |
| RayCasts.RectPolygonBottom | Sources/SBEditor/Rect.cpp:14-16 | the rect's polygon is counter-clockwise and its last edge is the rect's bottom edge |
| Overlaps.FaceScanIsDeepest | Sources/SBEditor/Intersection.cpp:185-199 | the inner scan finds a point behind the face exactly when there is one, and then the squared depth of the deepest one; otherwise FLT_LOWEST |
| Overlaps.DeepestBehind | Sources/SBEditor/Intersection.cpp:185-199 | the inner loop computes that scan and reports the face's normal exactly when a point was found |
| Overlaps.FaceAxisIsDeepest | Sources/SBEditor/Intersection.cpp:185-206 | a face separates exactly when no point is behind it; otherwise it offers its deepest point's depth, never negative |
| Overlaps.FoldAppend | Sources/SBEditor/Intersection.cpp:184-232 | the second face loop continues the minimum where the first one stopped |
| Overlaps.FoldSeparates | Sources/SBEditor/Intersection.cpp:201-227 | the search ends without contact exactly when some axis separates |
| Overlaps.FoldIsLeast | Sources/SBEditor/Intersection.cpp:204-207 | without a separating axis the search keeps the least depth, from the first axis reaching it |
| Overlaps.LeastPenetration | Sources/SBEditor/Intersection.cpp:184-208 | the outer face loop returns the fold over the faces' axes |
| Overlaps.TwoSidedContact | Sources/SBEditor/Intersection.cpp:181-238 | the two face loops and the final `IntersectionInfo(normal, sqrt(t))` give the contact of both face lists |
| Overlaps.NoContactIffSeparated | Sources/SBEditor/Intersection.cpp:181-238 | a separating-axis query reports no contact exactly when some face separates the shapes |
| Overlaps.ContactIsLeastPenetration | Sources/SBEditor/Intersection.cpp:181-238 | a contact's penetration is the root of a depth every face reaches, with the normal of a face no deeper than it (or FLT_MAX and the zero normal) |
| Overlaps.RectRect | Sources/SBEditor/Intersection.cpp:181-238 | `get(Rect, Rect)` is the contact of a's faces against b's corners (normals negated) and b's faces against a's corners |
| Overlaps.PolygonPolygon | Sources/SBEditor/Intersection.cpp:399-464 | `get(Polygon, Polygon)` is the contact of a's faces against b's points and b's faces against a's points |
| Overlaps.PolygonRect | Sources/SBEditor/Intersection.cpp:465-526 | `get(Polygon, Rect)` is the contact of the polygon's faces against the rect's corners and the rect's faces against the polygon's points |
| Overlaps.InsideFaceStep | Sources/SBEditor/Intersection.cpp:546-551 | a face with the centre on its inner side at distance d offers (r + d)², reported with the face's normal |
| Overlaps.FacePenetration | Sources/SBEditor/Intersection.cpp:535-554 | the face test of the circle loop, as intended: the squared candidate replaces the best only when it is smaller, comparing like with like |
| Overlaps.CircleContact | Sources/SBEditor/Intersection.cpp:534-584 | the circle loop, as intended: per face the face step then the vertex step, giving the contact of all steps |
| Overlaps.RectCircle | Sources/SBEditor/Intersection.cpp:309-365 | `get(Rect, Circle)` is that contact over the rect's faces |
| Overlaps.PolygonCircle | Sources/SBEditor/Intersection.cpp:527-587 | `get(Polygon, Circle)` is that contact over the polygon's faces |
| Overlaps.CircleNoContactIffSeparated | Sources/SBEditor/Intersection.cpp:538-578 | a circle query reports no contact exactly when a face step or a vertex step separates |
| Overlaps.CircleContactIsLeastPenetration | Sources/SBEditor/Intersection.cpp:534-586 | a circle contact's penetration is the root of a depth no step undercuts, reported with the normal of a step at that depth |
| Overlaps.AsWrittenAgreesOnPlainSteps | Sources/SBEditor/Intersection.cpp:541-579 | where the compared value is the step's own depth, the code as written and the intended fold agree |
| Overlaps.MixedUnitsAsWritten | Sources/SBEditor/Intersection.cpp:541-549 | as written, comparing the unsquared candidate with the squared best lets a face of squared depth 25 replace one of 16 |
| StaticTrees.LeavesInside | Sources/SBEditor/SpatialTree.cpp:34-72 | in a built tree every node's bounds contain the bounds of every shape below it |
| StaticTrees.UnionOf | Sources/SBEditor/SpatialTree.cpp:18-30 | `computeBounds` contains the bounds of every shape |
| StaticTrees.SortBy | Sources/SBEditor/SpatialTree.cpp:288-322 | the sort by key is a permutation |
| StaticTrees.SortIsSorted | Sources/SBEditor/SpatialTree.cpp:288-322 | the sort orders the shapes by key |
| StaticTrees.Middle | Sources/SBEditor/SpatialTree.cpp:292-323 | the median index is the lower middle for an even count |
| StaticTrees.SeparateSplits | Sources/SBEditor/SpatialTree.cpp:296-332 | every shape goes to exactly one side: the first side holds exactly those strictly intersecting the median's region |
| StaticTrees.AxisPartition | Sources/SBEditor/SpatialTree.cpp:278-339 | a partition that splits has two non-empty sides that together are the shapes |
| StaticTrees.Choose | Sources/SBEditor/SpatialTree.cpp:344-368 | a failed horizontal split yields the vertical outcome, a failed vertical split the horizontal one, otherwise one of the two |
| StaticTrees.BestPartition | Sources/SBEditor/SpatialTree.cpp:340-369 | `staticBestPartition` as intended chooses between the horizontal and the vertical partition |
| StaticTrees.AsWrittenIsHorizontal | Sources/SBEditor/SpatialTree.cpp:342-343 | as written both calls are horizontal, so the result is always the horizontal partition |
| StaticTrees.Partition | Sources/SBEditor/SpatialTree.cpp:370-382 | `partition` builds a tree holding every shape exactly once in some terminal node |
| StaticTrees.SidesSmaller | Sources/SBEditor/SpatialTree.cpp:370-382 | both sides of a split are smaller than the whole, so the recursion ends |
| StaticTrees.BuildTree | Sources/SBEditor/SpatialTree.cpp:121-137 | no tree exactly for no shapes; otherwise a built tree holding every shape exactly once |
| StaticTrees.StackedHorizontal | Sources/SBEditor/SpatialTree.cpp:278-308 | three stacked squares with a shared right edge cannot be split horizontally |
| StaticTrees.StackedVertical | Sources/SBEditor/SpatialTree.cpp:309-339 | the vertical partition splits them into the upper two and the lowest |
| StaticTrees.StackedShapesAsWritten | Sources/SBEditor/SpatialTree.cpp:340-369 | as written the stack is never split, while the intended choice splits it |
| StaticTrees.TerminalCollectSound | Sources/SBEditor/SpatialTree.cpp:488-524 | a terminal scan only pushes matching shapes of its node, and only while there is room |
| StaticTrees.CollectSound | Sources/SBEditor/SpatialTree.cpp:484-534 | the query keeps what the buffer held, never exceeds twelve shapes, and reports only matching shapes below the node |
| StaticTrees.TerminalCollectComplete | Sources/SBEditor/SpatialTree.cpp:488-498 | a scan that ends with room left pushed every matching shape of the node |
| StaticTrees.CollectComplete | Sources/SBEditor/SpatialTree.cpp:484-506 | a query on a built tree that ends with room left reports every matching shape below the node |
| StaticTrees.TerminalCollectStaysFull | Sources/SBEditor/SpatialTree.cpp:485-491 | once the buffer is full the rest of the scan changes nothing |
| StaticTrees.EntryMatches | Sources/SBEditor/SpatialTree.cpp:492-523 | the per-shape test: the exclusion and mask tests, then the range test or the pick test |
| StaticTrees.PickEntry | Sources/SBEditor/SpatialTree.cpp:514-523 | the pick test: mask, bounds, then the exact circle or polygon test (rects by bounds alone) |
| StaticTrees.ContainsPointOf | Sources/SBEditor/SpatialTree.cpp:516-521 | the exact containment test by geometry kind |
| StaticTrees.QueryAt | Sources/SBEditor/SpatialTree.cpp:484-534 | `staticRangeQuery` and `staticPickQuery` push into the buffer exactly the shapes of the specified descent |
| StaticRayCasts.ShapeRayCast | Sources/SBEditor/SpatialTree.cpp:425-427 | the ray is cast against the shape's geometry with the routine for its kind |
| StaticRayCasts.TerminalScanNearest | Sources/SBEditor/SpatialTree.cpp:420-439 | the terminal result is the first mask-passing shape the ray meets at the least parameter |
| StaticRayCasts.TerminalRayCast | Sources/SBEditor/SpatialTree.cpp:420-440 | the terminal loop computes that scan |
| StaticRayCasts.ScanStepAt | Sources/SBEditor/SpatialTree.cpp:423-438 | one pass of the terminal loop |
| StaticRayCasts.RayTestOf | Sources/SBEditor/SpatialTree.cpp:384-418 | `computeRayCastStaticTest`: none exactly when the ray meets neither child's bounds; only-a/a-after-b only when it meets a; both only when the origin is inside both |
| StaticRayCasts.Closer | Sources/SBEditor/SpatialTree.cpp:452-457 | the nearer of two results: empty only when both are, and never further than either |
| StaticRayCasts.StaticRaySound | Sources/SBEditor/SpatialTree.cpp:419-481 | a non-empty static ray result names a mask-passing shape below the node that the ray hits at the reported point and parameter |
| StaticRayCasts.StaticRayCastAt | Sources/SBEditor/SpatialTree.cpp:419-481 | the recursive `staticRayCast` computes the specified result |
| DynamicTables.CellAddress | Sources/SBEditor/SpatialTree.cpp:535-539 | `cellAddress` rounds each coordinate divided by the cell size down, so the point lies in its cell's square |
| DynamicTables.CellBounds | Sources/SBEditor/SpatialTree.cpp:540-544 | `cellBounds` is the cell's square |
| DynamicTables.PointInItsCell | Sources/SBEditor/SpatialTree.cpp:535-544 | every point lies in the square of its own cell |
| DynamicTables.AddressMonotone | Sources/SBEditor/SpatialTree.cpp:535-539 | cell addresses grow with the coordinates |
| DynamicTables.RangeCoversRect | Sources/SBEditor/SpatialTree.cpp:545-548 | every point of a rect lies in a cell of its `cellAddressRange` |
| DynamicTables.RemoveFirstAt | Sources/SBEditor/SpatialTree.cpp:578-587 | the erase loop takes out the first entry for the shape and keeps every other entry in order |
| DynamicTables.RemoveFirstAbsent | Sources/SBEditor/SpatialTree.cpp:578-587 | a cell without the shape is left as it is |
| DynamicTables.RemoveFirstAppended | Sources/SBEditor/SpatialTree.cpp:556-587 | removing an appended entry whose shape was not listed undoes the append |
| DynamicTables.AddCellsLookup | Sources/SBEditor/SpatialTree.cpp:554-556 | the add loops append the entry to exactly the cells of the range, and leave every other cell as it was |
| DynamicTables.EraseCellsLookup | Sources/SBEditor/SpatialTree.cpp:576-588 | the remove loops remove the first entry for the shape from exactly the cells of the range |
| DynamicTables.EraseUndoesAdd | Sources/SBEditor/SpatialTree.cpp:549-588 | removing a shape over the range it was added with restores the table, when it was not listed before |
| DynamicTables.BumpKeysCount | Sources/SBEditor/SpatialTree.cpp:558-568 | the count loops bump exactly the counts of the range, creating missing keys at 1 |
| DynamicTables.DropKeysCount | Sources/SBEditor/SpatialTree.cpp:590-599 | the removal's count loops drop exactly the counts of the range, erasing keys that reach zero |
| DynamicTables.DropUndoesBump | Sources/SBEditor/SpatialTree.cpp:549-600 | dropping the keys just bumped restores the counts |
| DynamicTables.BumpKeepsPositive | Sources/SBEditor/SpatialTree.cpp:558-568 | without wrap-around every present count stays positive |
| DynamicTables.MinKey | Sources/SBEditor/SpatialTree.cpp:605-607 | `begin()->first` of an ordered map is the least key |
| DynamicTables.MaxKey | Sources/SBEditor/SpatialTree.cpp:606-608 | `rbegin()->first` is the greatest key |
| DynamicTables.DynamicBounds | Sources/SBEditor/SpatialTree.cpp:601-611 | `dynamicBounds` is a well-formed rect |
| DynamicTables.DynamicBoundsCover | Sources/SBEditor/SpatialTree.cpp:601-611 | the grid's bounds contain every cell whose column and row both have a count |
| DynamicTables.RangeFoldFull | Sources/SBEditor/SpatialTree.cpp:704-709 | once the buffer is full the scan changes nothing |
| DynamicTables.RangeFoldAppend | Sources/SBEditor/SpatialTree.cpp:702-720 | the scan over two lists continues where the first left off |
| DynamicTables.TestRectRectSymmetric | Sources/SBEditor/Intersection.cpp:287-298 | `test(Rect, Rect)` is symmetric |
| DynamicTables.RangeFoldSound | Sources/SBEditor/SpatialTree.cpp:702-720 | the scan pushes only distinct shapes of listed entries matching the query |
| DynamicTables.RangeFoldComplete | Sources/SBEditor/SpatialTree.cpp:702-720 | when the scan ends with room left, every listed matching shape was pushed |
| DynamicIndex.EmptyHolds | Sources/SBEditor/SpatialTree.cpp:93-103 | the empty grid satisfies the table and count invariants |
| DynamicIndex.AxisAtMost | Sources/SBEditor/SpatialTree.cpp:558-568 | no count exceeds the number of registered shapes |
| DynamicIndex.AddHolds | Sources/SBEditor/SpatialTree.cpp:549-557 | the add's table loops keep the invariant (every cell lists exactly the registered shapes reaching it, once) with the new shape registered |
| DynamicIndex.AddedBucket | Sources/SBEditor/SpatialTree.cpp:556 | one cell after the add lists no shape twice, only registered shapes reaching it, and all of them |
| DynamicIndex.UsersAdd | Sources/SBEditor/SpatialTree.cpp:554-568 | registering a shape adds it to the users of exactly the columns (rows) of its range |
| DynamicIndex.AddAxis | Sources/SBEditor/SpatialTree.cpp:558-568 | the add's count loop of one axis keeps each count equal to the number of registered shapes in that column (row) |
| DynamicIndex.AddCounts | Sources/SBEditor/SpatialTree.cpp:549-570 | the add's column and row loops keep both count invariants |
| DynamicIndex.RemoveFirstDistinct | Sources/SBEditor/SpatialTree.cpp:578-587 | in a cell without repeated shapes the erase removes every entry for the shape and keeps the rest |
| DynamicIndex.EraseHolds | Sources/SBEditor/SpatialTree.cpp:571-589 | the removal's table loops keep the table invariant with the shape unregistered |
| DynamicIndex.ErasedBucket | Sources/SBEditor/SpatialTree.cpp:578-587 | one cell after the removal lists no shape twice, only remaining registered shapes reaching it, and all of them |
| DynamicIndex.UsersErase | Sources/SBEditor/SpatialTree.cpp:576-599 | unregistering removes the shape from the users of exactly the columns (rows) of its range |
| DynamicIndex.EraseAxis | Sources/SBEditor/SpatialTree.cpp:590-599 | the removal's count loop of one axis keeps its invariant, erasing counts that reach zero |
| DynamicIndex.EraseCounts | Sources/SBEditor/SpatialTree.cpp:571-600 | the removal's column and row loops keep both count invariants |
| DynamicIndex.RemoveUndoesAdd | Sources/SBEditor/SpatialTree.cpp:549-600 | removing a shape just added over the same bounds restores the table and both count maps exactly |
| DynamicIndex.RangeEntriesHas | Sources/SBEditor/SpatialTree.cpp:702-706 | the range scan lists the entries of every cell of the range |
| DynamicIndex.RangeEntriesFrom | Sources/SBEditor/SpatialTree.cpp:702-706 | every entry the range scan lists comes from some cell |
| DynamicIndex.ListedIsRegistered | Sources/SBEditor/SpatialTree.cpp:549-557 | under the invariant a listed entry is its shape's registered entry |
| DynamicIndex.PointListed | Sources/SBEditor/SpatialTree.cpp:549-611 | a point of a registered shape's bounds lies in the grid's bounds, in a cell listing the shape |
| DynamicIndex.DynamicRangeSound | Sources/SBEditor/SpatialTree.cpp:692-723 | `dynamicRangeQuery` keeps what the buffer held, never exceeds twelve shapes, and adds only distinct registered shapes matching mask, exclusion and bounds |
| DynamicIndex.DynamicRangeComplete | Sources/SBEditor/SpatialTree.cpp:692-723 | when it ends with room left, every registered matching shape is in the result |
| DynamicIndex.RangeReachesEntry | Sources/SBEditor/SpatialTree.cpp:693-706 | a registered shape touching the rect passes the grid-bounds test and is among the scanned entries |
| DynamicIndex.DynamicPickSound | Sources/SBEditor/SpatialTree.cpp:724-748 | `dynamicPickQuery` keeps what the buffer held, never exceeds twelve shapes, and adds only registered shapes that pass the pick test |
| DynamicIndex.DynamicPickComplete | Sources/SBEditor/SpatialTree.cpp:724-748 | when it ends with room left, every registered shape containing the point and passing the mask is in the result |
| DynamicIndex.AddKeepsGrid | Sources/SBEditor/SpatialTree.cpp:549-570 | the whole add keeps the grid invariant with the entry registered |
| DynamicIndex.EraseKeepsGrid | Sources/SBEditor/SpatialTree.cpp:571-600 | the whole removal keeps the grid invariant with the shape unregistered |
| DynamicGrid.CornersOrdered | Sources/SBEditor/SpatialTree.cpp:545-548 | the corner cells of a well-formed rect are in order |
| DynamicGrid.AddToTable | Sources/SBEditor/SpatialTree.cpp:549-570 | `addToDynamicTable`'s loops insert the entry into each cell of the range and bump the column and row counts |
| DynamicGrid.EraseFromCell | Sources/SBEditor/SpatialTree.cpp:578-587 | the per-cell loop erases the first entry of the shape, leaving no empty bucket |
| DynamicGrid.EraseFromTable | Sources/SBEditor/SpatialTree.cpp:571-600 | `removeFromDynamicTable`'s loops erase the shape's first entry from each cell of the range and drop the column and row counts |
| DynamicGrid.EraseFromColumn | Sources/SBEditor/SpatialTree.cpp:576-588 | the inner loop of the removal covers the cells of one column |
| DynamicGrid.DropRows | Sources/SBEditor/SpatialTree.cpp:595-599 | the row loop of the removal drops the row counts |
| DynamicGrid.ScanPrefix | Sources/SBEditor/SpatialTree.cpp:702-706 | where the query's loops stand is a prefix of all the range's entries |
| DynamicGrid.FullAtPrefix | Sources/SBEditor/SpatialTree.cpp:704-709 | a scan whose buffer is full at a prefix ends there |
| DynamicGrid.RangeEntryAt | Sources/SBEditor/SpatialTree.cpp:709-719 | one entry of the range scan: mask, exclusion, already-checked and bounds tests, then the push and the check mark |
| DynamicGrid.RangeBucketAt | Sources/SBEditor/SpatialTree.cpp:707-720 | the scan of one cell's entries, stopping when the buffer is full |
| DynamicGrid.RangeColumnAt | Sources/SBEditor/SpatialTree.cpp:703-721 | the scan of one column's cells, stopping when the buffer is full |
| DynamicGrid.ColumnScanSteps | Sources/SBEditor/SpatialTree.cpp:702-706 | the scanned entries grow cell by cell along a column |
| DynamicGrid.DynamicRangeAt | Sources/SBEditor/SpatialTree.cpp:692-723 | `dynamicRangeQuery` leaves the buffer as the specified range result |
| DynamicGrid.RangeCellsAt | Sources/SBEditor/SpatialTree.cpp:702-722 | the column loop computes the range fold over all the range's entries |
| DynamicGrid.DynamicPickAt | Sources/SBEditor/SpatialTree.cpp:724-747 | `dynamicPickQuery` leaves the buffer as the specified pick result |
| QueryResults.ContactBetween | Sources/SBEditor/SpatialTree.h:35-42 | `ExIntersectionInfo(a, b, n, p)` is a non-empty contact with those fields |
| QueryResults.HitOf | Sources/SBEditor/SpatialTree.h:71-77 | `RayCastResult(s, v, p)` is a non-empty hit with those fields |
| QueryResults.RangeQueryResult.constructor | Sources/SBEditor/SpatialTree.h:83-87 | a new buffer holds no shape and every slot is null |
| QueryResults.RangeQueryResult.PushShape | Sources/SBEditor/SpatialTree.h:88-92 | `pushShape` needs room, writes the shape into slot `count` and grows the count by one |
| QueryResults.RangeQueryResult.Clear | Sources/SBEditor/SpatialTree.h:96-100 | `clear` nulls every slot and empties the buffer |
| QueryResults.FullIffTwelve | Sources/SBEditor/SpatialTree.h:93-95 | a buffer is full exactly when it holds twelve shapes |
| QueryResults.IntersectionQueryResult.constructor | Sources/SBEditor/SpatialTree.h:47-49 | a new contact buffer holds nothing and every slot is an empty contact |
| QueryResults.IntersectionQueryResult.PushInfo | Sources/SBEditor/SpatialTree.h:50-54 | `pushInfo` needs room, writes the contact into slot `count` and grows the count by one |
| SpatialQueries.TreeHolds | Sources/SBEditor/SpatialTree.cpp:370-382 | the static tree `partition` builds from a list of entries holds exactly those entries |
| SpatialQueries.StaticCollectSound | Sources/SBEditor/SpatialTree.cpp:150-155 | the static half keeps what the buffer held, never passes twelve shapes, and adds only matching static shapes (also lines 484-506) |
| SpatialQueries.StaticCollectComplete | Sources/SBEditor/SpatialTree.cpp:150-155 | the static half misses no matching static entry unless the buffer fills (also lines 484-506) |
| SpatialQueries.RangeResultSound | Sources/SBEditor/SpatialTree.cpp:801-815 | `rangeQuery` keeps what the buffer held, never passes twelve shapes, and adds only shapes of the allowed halves that pass the mask, are not excluded and overlap the rect |
| SpatialQueries.RangeResultComplete | Sources/SBEditor/SpatialTree.cpp:801-815 | `rangeQuery` that ends with room in the buffer misses no such shape |
| SpatialQueries.PickResultSound | Sources/SBEditor/SpatialTree.cpp:817-831 | `pickQuery` keeps what the buffer held, never passes twelve shapes, and adds only shapes of the allowed halves that contain the point |
| SpatialQueries.PickResultComplete | Sources/SBEditor/SpatialTree.cpp:817-831 | `pickQuery` that ends with room in the buffer misses no such shape |
| SpatialQueries.MergeRay | Sources/SBEditor/SpatialTree.cpp:788-797 | the dynamic result replaces the static one exactly when the static one is empty or the dynamic hit is non-empty and nearer |
| SpatialQueries.RayResult | Sources/SBEditor/SpatialTree.cpp:781-799 | `rayCast`: the static cast when the filter asks for it, then the dynamic walk bounded by the static hit's squared distance, merged |
| SpatialQueries.StaticRayFrom | Sources/SBEditor/SpatialTree.cpp:138-146 | a hit of the static half is where the ray meets a static shape that passes the mask, with that shape's normal (also lines 419-481) |
| SpatialQueries.RayResultFrom | Sources/SBEditor/SpatialTree.cpp:781-799 | a hit `rayCast` reports comes from the static shapes or from the dynamic walk |
| SpatialQueries.ShapeContact | Sources/SBEditor/SpatialTree.cpp:202-263 | `testIntersection`: the overlap test for each pair of kinds, with the normal negated when the pair is swapped, and the two bodies recorded |
| SpatialQueries.ContactSwap | Sources/SBEditor/SpatialTree.cpp:212-247 | testing two bodies of different kinds either way round gives the same overlap and penetration with opposite normals |
| SpatialQueries.SwappedContact | Sources/SBEditor/SpatialTree.cpp:212-219 | when the pair is swapped, the reported contact is the other order's with its normal negated (also lines 244-247, 258-262) |
| SpatialQueries.TestIntersection | Sources/SBEditor/SpatialTree.cpp:202-263 | `testIntersection` on the bodies' current geometry equals the contact function |
| SpatialQueries.Pushed | Sources/SBEditor/SpatialTree.cpp:842-849 | the contact loop stops once the buffer is full and pushes each non-empty test result |
| SpatialQueries.PushedComplete | Sources/SBEditor/SpatialTree.cpp:842-849 | a loop that ends with room pushed every non-empty test result |
| SpatialQueries.PushedStep | Sources/SBEditor/SpatialTree.cpp:843-848 | one more test pushes its contact when it is non-empty and there is room |
| SpatialQueries.FoundContactsSound | Sources/SBEditor/SpatialTree.cpp:842-863 | a contact loop keeps what the buffer held, never passes twelve contacts, and pushes only non-empty contacts of the body with found shapes |
| SpatialQueries.FoundContactsComplete | Sources/SBEditor/SpatialTree.cpp:842-863 | a contact loop that ends with room pushed the body's contact with every found shape it touches |
| SpatialQueries.IntersectionResultSound | Sources/SBEditor/SpatialTree.cpp:833-865 | `intersectionQuery` keeps what the buffer held, never passes twelve contacts, and adds only non-empty contacts of the body with shapes of the allowed halves |
| SpatialQueries.IntersectionResultComplete | Sources/SBEditor/SpatialTree.cpp:833-865 | `intersectionQuery` that ends with room misses the contact with no shape the range queries found |
| SpatialQueries.PushContacts | Sources/SBEditor/SpatialTree.cpp:842-863 | the contact loop leaves the contact buffer as the specified push sequence |
| SpatialTrees.EntryOf | Sources/SBEditor/SpatialTree.h:116-124 | what the tree records of a shape: its bounds, type mask and geometry as they are now |
| SpatialTrees.ErasedUndoesAdded | Sources/SBEditor/SpatialTree.cpp:549-600 | removing a shape just added, with the bounds it was added with, gives back the grid it was added to |
| SpatialTrees.CollectEntries | Sources/SBEditor/SpatialTree.cpp:124-126 | the static shapes' current entries, copied into a list in order |
| SpatialTrees.AddToGrid | Sources/SBEditor/SpatialTree.cpp:549-570 | `addToDynamicTable` on the grid keeps the grid invariant with the entry registered |
| SpatialTrees.EraseFromGrid | Sources/SBEditor/SpatialTree.cpp:571-600 | `removeFromDynamicTable` with the added bounds erases the entry and keeps the invariant |
| SpatialTrees.RebuiltHolds | Sources/SBEditor/SpatialTree.cpp:121-137 | a tree built from duplicate-free static shapes' entries is a clean static half |
| SpatialTrees.RangeQuerySound | Sources/SBEditor/SpatialTree.cpp:801-815 | `rangeQuery` on the tree keeps the buffer's prefix, stays within twelve and adds only matching shapes |
| SpatialTrees.RangeQueryComplete | Sources/SBEditor/SpatialTree.cpp:801-815 | `rangeQuery` that ends with room misses no matching registered dynamic or static shape |
| SpatialTrees.PickQuerySound | Sources/SBEditor/SpatialTree.cpp:817-831 | `pickQuery` on the tree adds only shapes of allowed halves that contain the point |
| SpatialTrees.PickQueryComplete | Sources/SBEditor/SpatialTree.cpp:817-831 | `pickQuery` that ends with room misses no shape of an allowed half that contains the point |
| SpatialTrees.StaticJoinHolds | Sources/SBEditor/SpatialTree.cpp:104-111 | a shape joining the static set keeps the static half's invariant |
| SpatialTrees.RayCastFrom | Sources/SBEditor/SpatialTree.cpp:781-799 | a ray cast on the tree reports a hit only from a static shape or from the dynamic walk |
| SpatialTrees.DynamicFoundProper | Sources/SBEditor/SpatialTree.cpp:692-723 | the dynamic range query finds registered shapes only, never the excluded one |
| SpatialTrees.StaticFoundProper | Sources/SBEditor/SpatialTree.cpp:484-506 | the static range query finds static shapes only, never the excluded one |
| SpatialTrees.IntersectionQuerySound | Sources/SBEditor/SpatialTree.cpp:833-865 | `intersectionQuery` on the tree adds only non-empty contacts of the body with other shapes of the tree |
| SpatialTrees.DynamicIntersections | Sources/SBEditor/SpatialTree.cpp:839-850 | the dynamic half of `intersectionQuery`: nothing on a full buffer, else the contacts with the grid's range query |
| SpatialTrees.DynamicContactsAt | Sources/SBEditor/SpatialTree.cpp:840-841 | the grid's range query into a fresh buffer with the body's bounds and collision mask, the body excluded |
| SpatialTrees.SpatialTree.constructor | Sources/SBEditor/SpatialTree.cpp:93-97 | a new tree holds no shapes and no static tree, is marked dirty and has an empty grid (also lines 750-752) |
| SpatialTrees.SpatialTree.AddStaticNode | Sources/SBEditor/SpatialTree.cpp:104-111 | `addStaticNode` on a shape without a parent: it joins the static set, takes this tree as parent, is made static, and the tree is dirty (also lines 762-764) |
| SpatialTrees.SpatialTree.RemoveStaticNode | Sources/SBEditor/SpatialTree.cpp:112-120 | `removeStaticNode` on a static shape of this tree: it leaves the set, loses its parent, and the tree is dirty |
| SpatialTrees.SpatialTree.RebuildStaticTree | Sources/SBEditor/SpatialTree.cpp:121-137 | nothing when clean; otherwise the tree is rebuilt from the static shapes' current entries (none when there are none) and marked clean |
| SpatialTrees.SpatialTree.RefreshStaticTree | Sources/SBEditor/SpatialTree.cpp:124-136 | the dirty case: the entries copied into a list, the tree partitioned from it |
| SpatialTrees.SpatialTree.AddToDynamicTable | Sources/SBEditor/SpatialTree.cpp:549-570 | the shape's entry goes into every cell of its bounds and into the column and row counts |
| SpatialTrees.SpatialTree.RemoveFromDynamicTable | Sources/SBEditor/SpatialTree.cpp:571-600 | the shape's entry leaves every cell of its bounds and the counts drop |
| SpatialTrees.SpatialTree.AddDynamicNode | Sources/SBEditor/SpatialTree.cpp:163-169 | `addDynamicNode` on a shape without a parent: it goes into the grid, takes this tree as parent, and is made dynamic (also lines 766-768) |
| SpatialTrees.SpatialTree.RemoveDynamicNode | Sources/SBEditor/SpatialTree.cpp:170-177 | `removeDynamicNode` on a dynamic shape of this tree: it leaves the grid, loses its parent, and is made static |
| SpatialTrees.SpatialTree.StaticRangeQuery | Sources/SBEditor/SpatialTree.cpp:147-155 | rebuild, then nothing without a tree, else the tree's range query into the buffer |
| SpatialTrees.SpatialTree.StaticPickQuery | Sources/SBEditor/SpatialTree.cpp:156-161 | rebuild, then nothing without a tree, else the tree's pick query into the buffer |
| SpatialTrees.SpatialTree.RangeQuery | Sources/SBEditor/SpatialTree.cpp:801-815 | nothing on a full buffer; the dynamic half, then the static half if there is room, each when the filter allows |
| SpatialTrees.SpatialTree.PickQuery | Sources/SBEditor/SpatialTree.cpp:817-831 | the same order of halves, with the point |
| SpatialTrees.SpatialTree.RemoveNode | Sources/SBEditor/SpatialTree.cpp:770-775 | a dynamic shape leaves the grid, a static one the static set |
| SpatialTrees.SpatialTree.TransformDynamicNode | Sources/SBEditor/SpatialTree.cpp:178-185 | `transform` of a dynamic shape: it leaves the grid with its old bounds, is transformed, and goes back with its new entry (also lines 777-779) |
| SpatialTrees.SpatialTree.StaticRayCast | Sources/SBEditor/SpatialTree.cpp:138-146 | nothing for a zero direction (before any rebuild); otherwise rebuild, then the tree's cast |
| SpatialTrees.SpatialTree.RayCast | Sources/SBEditor/SpatialTree.cpp:781-799 | the static cast when asked, then the dynamic walk bounded by its distance, the nearer kept |
| SpatialTrees.SpatialTree.IntersectionQuery | Sources/SBEditor/SpatialTree.cpp:833-865 | `intersectionQuery` for a body of this tree: the dynamic contacts, then the static ones if there is room, each when the filter allows |
| SpatialTrees.SpatialTree.StaticIntersections | Sources/SBEditor/SpatialTree.cpp:853-864 | the static half: a range query over the rebuilt tree into a fresh buffer, then the contact loop |
| Meshes.Wrap | Sources/SBEditor/Mesh.h:58 | the conversion to `uint32_t` keeps values below 2^32 and is otherwise congruent modulo 2^32 |
| Meshes.Iota | Sources/SBEditor/Mesh.h:57-59 | the consecutive indices from a start, `n` of them, each wrapped to 32 bits |
| Meshes.Shift | Sources/SBEditor/Mesh.h:64-66 | every index moved by the offset, same length, wrapped to 32 bits |
| Meshes.MergeKeepsDrawing | Sources/SBEditor/Mesh.h:50-76 | the merged mesh draws this mesh's vertex order followed by the other's moved past this mesh's vertices, in every case of which mesh has indices |
| Meshes.MergedInRange | Sources/SBEditor/Mesh.h:50-76 | when both meshes' indices address their own vertices and the total fits in 32 bits, every merged index addresses a merged vertex |
| Meshes.MergeAsWrittenOutOfRange | Sources/SBEditor/Mesh.h:68-74 | as written, merging one index-less vertex into a mesh with one indexed vertex yields indices 0 and 2 over two vertices |
| Meshes.GrownBounds | Sources/SBEditor/BaseMesh.cpp:165-169 | the 1.25 growth loop ends at or above the request and the start, and below 1.25 times the request when it grew at all |
| Meshes.GrowthTarget | Sources/SBEditor/BaseMesh.cpp:165-170 | the growth loop computes the truncated `Grown` capacity |
| Meshes.GrowthCovers | Sources/SBEditor/BaseMesh.cpp:162-182 | the capacity chosen by `ensure*Capacity` covers the request and is less than 5/4 of it |
| Meshes.SoftTarget | Sources/SBEditor/BaseMesh.cpp:143-155 | the soft-compressed capacity is at least the count and at most 5/4 of it, 4 for an empty buffer |
| Meshes.Reallocated | Sources/SBEditor/BaseMesh.cpp:74-88 | a fresh buffer of the new length holding the first `min(new, old)` elements |
| Meshes.Assigned | Sources/SBEditor/BaseMesh.cpp:201-243 | one buffer of the copy assignment: empty for an empty source, the current buffer when it is long enough, a new one otherwise, with the source's elements at the front |
| Meshes.Mesh.constructor | Sources/SBEditor/BaseMesh.cpp:11-15 | a new mesh has no buffers and every capacity and count 0 |
| Meshes.Mesh.Clone | Sources/SBEditor/BaseMesh.cpp:17-38 | the copy has the same counts and capacities and a copy of both whole buffers |
| Meshes.Mesh.Moved | Sources/SBEditor/BaseMesh.cpp:40-51 | the new mesh takes the other's buffers and counts, and the other is left empty |
| Meshes.Mesh.MoveAssign | Sources/SBEditor/BaseMesh.cpp:248-268 | as the move constructor |
| Meshes.Mesh.CopyAssign | Sources/SBEditor/BaseMesh.cpp:198-246 | each buffer as `Assigned`, and both counts become the other mesh's |
| Meshes.Mesh.SetVBCapacity | Sources/SBEditor/BaseMesh.cpp:64-89 | the capacity becomes the value, the count `min(count, value)`, and the first `min(old, new)` vertices are kept |
| Meshes.Mesh.SetIBCapacity | Sources/SBEditor/BaseMesh.cpp:91-116 | the same for the index buffer |
| Meshes.Mesh.EnsureVBCapacity | Sources/SBEditor/BaseMesh.cpp:162-171 | afterwards the capacity covers the request; nothing changes when it already did; otherwise it is the grown capacity and the contents and count are kept |
| Meshes.Mesh.EnsureIBCapacity | Sources/SBEditor/BaseMesh.cpp:173-182 | the same for the index buffer |
| Meshes.Mesh.SetVBCount | Sources/SBEditor/BaseMesh.cpp:118-122 | the count becomes the value, the capacity covers it, and the contents are kept |
| Meshes.Mesh.SetIBCount | Sources/SBEditor/BaseMesh.cpp:124-128 | the same for the index buffer |
| Meshes.Mesh.CompressBoth | Sources/SBEditor/BaseMesh.cpp:130-141 | each capacity becomes its count; vertices and indices in use are kept |
| Meshes.Mesh.SoftCompressBoth | Sources/SBEditor/BaseMesh.cpp:143-160 | each capacity becomes `SoftTarget` of its count; vertices and indices in use are kept |
| Meshes.Mesh.AppendIndex | Sources/SBEditor/BaseMesh.cpp:184-188 | the indices in use gain the index at the end and are otherwise unchanged |
| Meshes.Mesh.AppendVertex | Sources/SBEditor/BaseMesh.cpp:270-274 | the vertices in use gain the vertex at the end and are otherwise unchanged |
| Meshes.Mesh.CopyIndexes | Sources/SBEditor/BaseMesh.cpp:190-196 | an empty copy changes nothing; otherwise the indices land at `start`, the count becomes `max(count, start + n)` and other indices in use are kept |
| Meshes.Mesh.CopyVertexes | Sources/SBEditor/BaseMesh.cpp:276-282 | the same for vertices |
| Meshes.Mesh.WriteIdentity | Sources/SBEditor/Mesh.h:55-60 | a mesh without indices gets the identity over its vertices |
| Meshes.Mesh.AppendShifted | Sources/SBEditor/Mesh.h:61-67 | the other mesh's indices are appended, each moved by the old vertex count |
| Meshes.Mesh.ShiftFrom | Sources/SBEditor/Mesh.h:64-66 | every index in use from `start` on moves by the offset, every other element is kept |
| Meshes.Mesh.AppendRun | Sources/SBEditor/Mesh.h:68-74 | corrected: the other mesh's vertices are appended in order as indices starting at the old vertex count |
| Meshes.Mesh.Merge | Sources/SBEditor/Mesh.h:50-76 | the vertices in use become this mesh's followed by the other's, and the indices become `MergedIndices` of both |
| LinearCaches.FirstFree | Sources/SBEditor/LinearCache.h:40-42 | the index `get` stops at is the first unlocked entry with an equal input, and no entry is free when none is returned |
| LinearCaches.GetHit | Sources/SBEditor/LinearCache.h:40-53 | on a hit only that entry changes: counter one higher, locked exactly when a lock is asked for, initialised, output kept when it was built, its id written through the lock, seed unchanged |
| LinearCaches.GetMiss | Sources/SBEditor/LinearCache.h:56-71 | on a miss a new initialised entry with counter 1 and the seed as id is appended, the seed is written through the lock and then incremented |
| LinearCaches.GetNeverLocked | Sources/SBEditor/LinearCache.h:39-72 | the output returned belongs to an entry holding the input that was not locked before the call |
| LinearCaches.GetConsistent | Sources/SBEditor/LinearCache.h:34-72 | `get` keeps every id at least 1, below the seed and distinct |
| LinearCaches.UnlockReopens | Sources/SBEditor/LinearCache.h:39-72 | after a locking `get` and `unlock` of the id it wrote, the next `get` of the same input returns the same output without creating an entry |
| LinearCaches.Unlocked | Sources/SBEditor/LinearCache.h:123-128 | exactly the entries with the id lose their lock; length and everything else kept |
| LinearCaches.ReleaseAllKeeps | Sources/SBEditor/LinearCache.h:73-91 | after `releaseAll` exactly the initialised, locked entries remain, in order and unchanged (none when forced) |
| LinearCaches.ForcedReleaseEmpties | Sources/SBEditor/LinearCache.h:36-38 | the destructor's forced release leaves no entry |
| LinearCaches.ForcedReleaseDestroys | Sources/SBEditor/LinearCache.h:73-81 | a forced release destroys the output of every initialised entry |
| LinearCaches.InitializedConsistent | Sources/SBEditor/LinearCache.h:83-90 | the `remove_if` step keeps ids distinct and below the seed |
| LinearCaches.EvictCount | Sources/SBEditor/LinearCache.h:107-121 | the freeing loop frees exactly `min(count - CacheSize, evictable)` initialised entries |
| LinearCaches.EvictPointwise | Sources/SBEditor/LinearCache.h:107-121 | every entry is either kept or, when initialised and unlocked, freed; locked entries are never touched |
| LinearCaches.EvictInOrder | Sources/SBEditor/LinearCache.h:107-121 | entries are freed in list order: each freed entry lies before every evictable entry left |
| LinearCaches.LeastUsedFreedFirst | Sources/SBEditor/LinearCache.h:103-121 | after sorting by counter, no freed entry has a higher counter than an evictable entry that was kept |
| LinearCaches.CountsOfPermutation | Sources/SBEditor/LinearCache.h:93-105 | sorting does not change how many entries are initialised or evictable |
| LinearCaches.ConsistentPermutation | Sources/SBEditor/LinearCache.h:103-105 | sorting keeps ids distinct and below the seed |
| LinearCaches.CompressReachesSize | Sources/SBEditor/LinearCache.h:92-122 | when more than CacheSize entries are initialised, `compress` brings the count down to CacheSize, or to the number of locked initialised entries when those alone exceed it |
| LinearCaches.CompressConsistent | Sources/SBEditor/LinearCache.h:92-122 | `compress` keeps ids distinct and below the seed |
| LinearCaches.InitCountBounds | Sources/SBEditor/LinearCache.h:93-98 | evictable entries are at most the initialised ones, which are at most the list length |
| LinearCaches.LinearCache.constructor | Sources/SBEditor/LinearCache.h:32-35 | a new cache is empty with seed 1 |
| LinearCaches.LinearCache.Get | Sources/SBEditor/LinearCache.h:39-72 | the scan and the new state equal `GetResult` on the old state, and the id invariant is kept |
| LinearCaches.LinearCache.Unlock | Sources/SBEditor/LinearCache.h:123-128 | the new list is `Unlocked` of the old one |
| LinearCaches.LinearCache.ReleaseAll | Sources/SBEditor/LinearCache.h:73-91 | the new list is the initialised part of the released list; the destroyed log grows by the released outputs in order |
| LinearCaches.LinearCache.Compress | Sources/SBEditor/LinearCache.h:92-122 | the new list and destroyed log are those of `Compressed` on the old list and the sorted order |
| LinearCaches.ReleaseEach | Sources/SBEditor/LinearCache.h:74-81 | the first loop of `releaseAll` computes `ReleasedAll` and `ReleasedOutputs` |
| LinearCaches.FreeInOrder | Sources/SBEditor/LinearCache.h:107-121 | the freeing loop, with its early return, computes `Evict` |
| LinearCaches.RebuiltOutputLeaksAsWritten | Sources/SBEditor/LinearCache.h:44-45 | as written, a rebuilt entry stays uninitialised, so a forced release drops it without destroying its output |
| LinearCaches.GetOutputDestroyedOnRelease | Sources/SBEditor/LinearCache.h:44-45 | with the rebuilt entry marked initialised, whatever `get` returns is destroyed by a forced release |
| Batchers.WriteAt | Sources/SBEditor/DynamicBatcher.cpp:201 | a `memcpy` at an offset: the prefix before the offset is kept, the data sits at the offset, what lies beyond the data is kept, and the buffer grows only as far as the data reaches |
| Batchers.BatchedMeshDrawsItself | Sources/SBEditor/DynamicBatcher.cpp:187-224 | when the mesh's indices address its own vertices and the buffer fits 32-bit indices, every emitted index, read from the draw call's base vertex, reaches the vertex the mesh itself draws at that position |
| Batchers.MeshIndices | Sources/SBEditor/DynamicBatcher.cpp:198-218 | the indices emitted for a mesh are its own indices, or its vertices in order when it has none, each moved by the correction with 32-bit wrap-around |
| Batchers.CorrectIndices | Sources/SBEditor/DynamicBatcher.cpp:200-204 | the loop adds the correction to every copied index, with 32-bit wrap-around |
| Batchers.RunIndices | Sources/SBEditor/DynamicBatcher.cpp:211-214 | the loop writes the consecutive indices from the correction, one per vertex |
| Batchers.BufferTargetCovers | Sources/SBEditor/DynamicBatcher.cpp:493-507 | the size chosen when a buffer must grow is a multiple of the alignment and strictly larger than the requested minimum |
| Batchers.ComputeBufferTarget | Sources/SBEditor/DynamicBatcher.cpp:497-507 | the 1.25 growth loop from the current size (4 when empty) and the rounding past a multiple of the alignment compute the growth target |
| Batchers.EnsureBufferSize | Sources/SBEditor/DynamicBatcher.cpp:493-513 | a buffer that already covers the minimum is left as it is; otherwise its recorded size covers the minimum afterwards, and its contents are kept |
| Batchers.EnsureBufferSizeSettles | Sources/SBEditor/DynamicBatcher.cpp:493-495 | once a buffer has grown, asking again for the same minimum changes nothing |
| Batchers.EnsureBufferSizeAsWrittenForgets | Sources/SBEditor/DynamicBatcher.cpp:509-512 | as written, the recorded size stays 0 after an empty buffer grows, and a buffer that holds data loses it when it grows |
| Batchers.InstancedModelOverwrittenAsWritten | Sources/SBEditor/DynamicBatcher.cpp:285-288 | as written, the model offset is not advanced past an instanced model, so the next mesh batched overwrites the model's first vertex |
| Batchers.InstancesOverwrittenAsWritten | Sources/SBEditor/DynamicBatcher.cpp:302-306 | as written, the instance offset is not advanced, so a second instance overwrites the first |
| Batchers.DynamicBatcher.constructor | Sources/SBEditor/DynamicBatcher.cpp:14-42 | a new batcher is not started, is dirty, has no draw calls and empty buffers at offset 0 |
| Batchers.DynamicBatcher.Begin | Sources/SBEditor/DynamicBatcher.cpp:53-72 | requires not started; every offset goes back to 0, the draw calls are dropped, the buffers' contents are kept, and the batcher is dirty and started |
| Batchers.DynamicBatcher.End | Sources/SBEditor/DynamicBatcher.cpp:74-79 | requires started with no open draw call; only `started` is cleared |
| Batchers.DynamicBatcher.BeginMeshes | Sources/SBEditor/DynamicBatcher.cpp:168-185 | requires started with no open draw call; appends an open, non-instanced call starting at the current model and index offsets with no indices |
| Batchers.DynamicBatcher.BatchMesh | Sources/SBEditor/DynamicBatcher.cpp:187-224 | requires an open non-instanced call and a mesh with vertices; the emitted indices are written at the index offset and the vertices at the model offset, both offsets advance by what was written, and the call counts the new indices; the invariant that the open call counts exactly the indices written since it began is kept |
| Batchers.DynamicBatcher.EndMeshes | Sources/SBEditor/DynamicBatcher.cpp:240-244 | requires an open non-instanced call; marks it ended and changes nothing else |
| Batchers.DynamicBatcher.BeginInstances | Sources/SBEditor/DynamicBatcher.cpp:246-291 | requires started with no open call and a model with vertices; the model's own indices (or its vertices in order), uncorrected, are written at the index offset and its vertices at the model offset; both offsets advance, and an open instanced call over those indices is appended |
| Batchers.DynamicBatcher.BatchInstance | Sources/SBEditor/DynamicBatcher.cpp:293-307 | requires an open instanced call and an instance with data; the data is written at the instance offset, which advances, and the call counts one more instance |
| Batchers.DynamicBatcher.EndInstances | Sources/SBEditor/DynamicBatcher.cpp:322-326 | requires an open instanced call; marks it ended and changes nothing else |
| TextureAtlases.SplitSeparatorFree | Sources/SBEditor/TextureAtlas.cpp:38-41 | no piece of a `token_compress_on` split holds the separator |
| TextureAtlases.SplitInnerNonEmpty | Sources/SBEditor/TextureAtlas.cpp:38-41 | a run of separators counts as one: only the first and last pieces can be empty |
| TextureAtlases.SplitConcat | Sources/SBEditor/TextureAtlas.cpp:38-41 | the pieces, joined, are the text without its separators |
| TextureAtlases.TrimDrops | Sources/SBEditor/TextureAtlas.cpp:44-45 | `trim` keeps a slice with only white space outside it and none at its ends |
| TextureAtlases.TrimIdempotent | Sources/SBEditor/TextureAtlas.cpp:44-45 | trimming a trimmed field changes nothing |
| TextureAtlases.TrimAll | Sources/SBEditor/TextureAtlas.cpp:44-45 | the in-place loop trims every field and keeps their number |
| TextureAtlases.CreateFromString | Sources/SBEditor/TextureAtlas.cpp:34-62 | the loop over the split lines yields the fold of the per-line step from an empty map and atlas size 0, or fails where `stof` throws |
| TextureAtlases.ParseLine | Sources/SBEditor/TextureAtlas.cpp:40-59 | one line: skipped unless five fields, `@@TX_SELF` sets the size, otherwise a normalised rect is inserted |
| TextureAtlases.MalformedLineSkipped | Sources/SBEditor/TextureAtlas.cpp:41-43 | a line without exactly five fields can be removed from anywhere in the text without changing the result |
| TextureAtlases.SelfLineSetsSize | Sources/SBEditor/TextureAtlas.cpp:46-53 | the `@@TX_SELF` line sets the atlas width and height and leaves the map unchanged |
| TextureAtlases.EntryIsNormalized | Sources/SBEditor/TextureAtlas.cpp:55-59 | a new texture's rect has centre ((x+w/2)/W, (y+h/2)/H) and size (w/W, h/H) |
| TextureAtlases.StepKeeps | Sources/SBEditor/TextureAtlas.cpp:49-59 | one line keeps every stored texture and adds at most the one it names, never `@@TX_SELF` |
| TextureAtlases.FirstEntryWins | Sources/SBEditor/TextureAtlas.cpp:59 | once a name is stored its rect never changes: with duplicate names the first line wins |
| TextureAtlases.StoredNamesFromLines | Sources/SBEditor/TextureAtlas.cpp:39-59 | every stored name is the trimmed first field of some five-field line and is not `@@TX_SELF` |
| TextureAtlases.SelfNeverStored | Sources/SBEditor/TextureAtlas.cpp:49-53 | a parsed atlas never holds `@@TX_SELF` |
| TextureAtlases.Lookup | Sources/SBEditor/TextureAtlas.cpp:19-21 | `operator[]` yields the stored rect exactly when the name is present (`at` throws otherwise) |
| TextureAtlases.AllTextures | Sources/SBEditor/TextureAtlas.cpp:23-32 | every name once, and as many names as `textureCount` |
| StateManagers.Pushed | Sources/SBEditor/StateManager.cpp:110-116 | the state `pushState` leaves current: the same bindings, no locks and no constant buffers |
| StateManagers.NestedPush | Sources/SBEditor/StateManager.cpp:110-116 | pushing keeps the stack of saved states nested and locks nothing new |
| StateManagers.NestedPop | Sources/SBEditor/StateManager.cpp:117-127 | popping the top leaves exactly the ids the states below lock: only the top's locks are released |
| StateManagers.NestedReplaceTop | Sources/SBEditor/StateManager.cpp:150-157 | a current state that only adds newly handed-out ids to its locks keeps the stack nested (also lines 205-265) |
| StateManagers.Unlock | Sources/SBEditor/StateManager.cpp:119-123 | the unlocking loops of `popState` unlock every id the current state locked |
| StateManagers.StateManager.constructor | Sources/SBEditor/StateManager.cpp:85-93 | a new manager has no saved states, a default current state and empty caches |
| StateManagers.StateManager.PushState | Sources/SBEditor/StateManager.cpp:110-116 | the current state is saved; the new current state keeps its bindings but no locks and no constant buffers |
| StateManagers.StateManager.PopState | Sources/SBEditor/StateManager.cpp:117-127 | only after a push; every render target and constant buffer the current state locked is unlocked and the saved state comes back |
| StateManagers.StateManager.LockRenderTarget | Sources/SBEditor/StateManager.cpp:150-157 | only after a push; the cache hands out an id, which the current state locks, and it is returned |
| StateManagers.StateManager.SetProgram | Sources/SBEditor/StateManager.cpp:159-163 | only after a push; the current program becomes the given pair and nothing else changes |
| StateManagers.StateManager.SetBlending | Sources/SBEditor/StateManager.cpp:164-168 | only after a push; the current blending becomes `b` and nothing else changes |
| StateManagers.StateManager.SetRenderTarget | Sources/SBEditor/StateManager.cpp:169-174 | only after a push and for a render target the current state locked; it becomes the current target with its interfaces |
| StateManagers.StateManager.SetVSSampler | Sources/SBEditor/StateManager.cpp:175-179 | only after a push; the vertex-shader sampler slot is set |
| StateManagers.StateManager.SetPSSampler | Sources/SBEditor/StateManager.cpp:180-184 | only after a push; the pixel-shader sampler slot is set |
| StateManagers.StateManager.Binding | Sources/SBEditor/StateManager.cpp:190-193 | a texture of the render-target bundle carries the locked target's interfaces, any other texture none |
| StateManagers.StateManager.SetVSTexture | Sources/SBEditor/StateManager.cpp:185-194 | only after a push, and for the render-target bundle only a locked target; the vertex-shader texture slot is set |
| StateManagers.StateManager.SetPSTexture | Sources/SBEditor/StateManager.cpp:195-204 | as for the vertex shader, on the pixel-shader slot |
| StateManagers.StateManager.SetVSConstantBuffer | Sources/SBEditor/StateManager.cpp:205-235 | only after a push and for a positive size; a current buffer of that size is kept, otherwise a cached one is locked and becomes current |
| StateManagers.StateManager.SetPSConstantBuffer | Sources/SBEditor/StateManager.cpp:236-265 | as for the vertex shader, on the pixel-shader buffer |
| Guillotines.NewRect | Sources/TXPacker/Guillotine.cpp:72-74 | the rect has the given bottom-left corner and size |
| Guillotines.FitsIffSmaller | Sources/TXPacker/Guillotine.cpp:114 | a size fits a free rect, placed at its bottom-left corner, exactly when it is no wider and no taller |
| Guillotines.BestFitOrder | Sources/TXPacker/Guillotine.cpp:18-36 | `isBestFit` is a strict order under every fit policy: irreflexive and transitive |
| Guillotines.TowardsOne | Sources/TXPacker/Guillotine.cpp:50-57 | the MAXAS normalisation lies in [0, 1] and is the distance of the ratio (inverted above one) from one |
| Guillotines.AwayFromOne | Sources/TXPacker/Guillotine.cpp:60-65 | the MINAS normalisation is at least one (or infinite) |
| Guillotines.BestSplit | Sources/TXPacker/Guillotine.cpp:38-70 | `bestSplit` picks the horizontal cut exactly when the policy's comparison holds |
| Guillotines.HorizontalRatio | Sources/TXPacker/Guillotine.cpp:50-60 | the ratio of the two piece areas of a horizontal cut, infinite on a zero denominator |
| Guillotines.VerticalRatio | Sources/TXPacker/Guillotine.cpp:53-63 | the ratio of the two piece areas of a vertical cut, infinite on a zero denominator |
| Guillotines.SplitInside | Sources/TXPacker/Guillotine.cpp:76-89 | both pieces of `performSplit` have non-negative sizes and lie inside the free rect |
| Guillotines.SplitTiles | Sources/TXPacker/Guillotine.cpp:76-89 | the two pieces and the placed rect overlap pairwise nowhere |
| Guillotines.SplitAreas | Sources/TXPacker/Guillotine.cpp:76-89 | the areas of the two pieces and the placed rect add up to the free rect's |
| Guillotines.Kept | Sources/TXPacker/Guillotine.cpp:129-132 | the pieces kept are exactly those of non-zero area |
| Guillotines.ChooseFree | Sources/TXPacker/Guillotine.cpp:110-120 | the search ends on no rect exactly when none fits, otherwise on a fitting rect that no other fits better |
| Guillotines.CutKeepsProper | Sources/TXPacker/Guillotine.cpp:126-132 | cutting a free rect for a fitting size keeps every free rect of non-zero area |
| Guillotines.OthersApart | Sources/TXPacker/Guillotine.cpp:125-132 | a free rect other than the chosen one overlaps neither the placed rect nor the pieces |
| Guillotines.PlacedApart | Sources/TXPacker/Guillotine.cpp:125-132 | the placed rect and the pieces overlap no packed rect the chosen one does not overlap |
| Guillotines.CutKeepsFreeApart | Sources/TXPacker/Guillotine.cpp:126-132 | cutting keeps the free rects inside the bin and pairwise apart |
| Guillotines.CutKeepsPackedApart | Sources/TXPacker/Guillotine.cpp:125-132 | placing and cutting keeps the packed rects inside the bin, apart from each other and from the free rects |
| Guillotines.CutKeepsApart | Sources/TXPacker/Guillotine.cpp:125-132 | placing a size at the corner of a fitting free rect and cutting it keeps the packing invariant |
| Guillotines.Context.Initialize | Sources/TXPacker/Guillotine.cpp:91-100 | one free rect, the bin at the origin; nothing packed; the policies recorded; the invariant holds |
| Guillotines.Context.TryPack | Sources/TXPacker/Guillotine.cpp:106-136 | none (state unchanged) when the packed area would exceed the bin or nothing fits; otherwise the best-fitting free rect is cut, the rect at its corner is packed and returned, and the invariant is kept |
| MaxRects.BottomLeftOrder | Sources/TXPacker/MaxRects.cpp:18-22 | under BL, `isBestFit` is the lexicographic order on (bottom, left), and being preferred is its strict part |
| MaxRects.ScanStep | Sources/TXPacker/MaxRects.cpp:95-99 | switching to a rect that fits at least as well keeps every rect seen so far no better than the held one |
| MaxRects.ChooseFree | Sources/TXPacker/MaxRects.cpp:91-101 | the search ends on no rect exactly when none fits, otherwise on a fitting rect that no fitting rect is preferred to |
| MaxRects.NonZero | Sources/TXPacker/MaxRects.cpp:50-57 | a piece is kept exactly when its width and height are non-zero |
| MaxRects.Split | Sources/TXPacker/MaxRects.cpp:40-58 | `split` gives nothing when the overlap is missing or flat, otherwise the kept left, right, top and bottom parts |
| MaxRects.SplitPieces | Sources/TXPacker/MaxRects.cpp:40-58 | every piece has positive width and height, lies inside the free rect and does not overlap the packed rect |
| MaxRects.SplitEmptyIff | Sources/TXPacker/MaxRects.cpp:40-58 | a split yields nothing exactly when the two do not overlap with positive area, or the free rect lies inside the packed one |
| MaxRects.SplitCovers | Sources/TXPacker/MaxRects.cpp:40-58 | the pieces cover every point of the free rect outside the packed rect |
| MaxRects.SplitAllAdd | Sources/TXPacker/MaxRects.cpp:113-120 | splitting one more free rect adds it when its split is empty, and its pieces otherwise |
| MaxRects.SplitEach | Sources/TXPacker/MaxRects.cpp:112-120 | the second loop replaces each free rect whose split is not empty by its pieces |
| MaxRects.Enumerate | Sources/TXPacker/MaxRects.cpp:112-121 | the copy of the set into a vector holds each element once |
| MaxRects.Row | Sources/TXPacker/MaxRects.cpp:64-66 | the pairs with the element at `i` first: it paired with each later element, in order |
| MaxRects.PairsComplete | Sources/TXPacker/MaxRects.cpp:61-69 | every pair of positions `a < b` is listed by `allPairs` |
| MaxRects.PairsSound | Sources/TXPacker/MaxRects.cpp:61-69 | every pair `allPairs` lists is of positions `a < b` |
| MaxRects.PairsCount | Sources/TXPacker/MaxRects.cpp:61-69 | `allPairs` lists n(n-1)/2 pairs for n elements |
| MaxRects.AllPairs | Sources/TXPacker/MaxRects.cpp:61-69 | `allPairs(v)` returns every pair of positions `i < j`, row by row |
| MaxRects.ContainsAntisymmetric | Sources/TXPacker/MaxRects.cpp:124-129 | two rects that contain each other are equal, so the third loop never erases both of a pair |
| MaxRects.Prune | Sources/TXPacker/MaxRects.cpp:121-130 | the free rects no other free rect contains; no two of them contain one another |
| MaxRects.Loser | Sources/TXPacker/MaxRects.cpp:124-129 | the rect a pair erases: the second when the first contains it, else the first when the second contains it |
| MaxRects.LoserDominated | Sources/TXPacker/MaxRects.cpp:124-129 | a rect some pair erases lies inside the other rect of that pair |
| MaxRects.DominatedLoser | Sources/TXPacker/MaxRects.cpp:121-130 | a free rect inside another is erased by the pair of the two |
| MaxRects.PairsPrune | Sources/TXPacker/MaxRects.cpp:121-130 | the pairs of a copy of the free set erase exactly the free rects another free rect contains |
| MaxRects.RemoveContained | Sources/TXPacker/MaxRects.cpp:121-130 | the third loop leaves the free set pruned |
| MaxRects.Rearrange | Sources/TXPacker/MaxRects.cpp:106-130 | the chosen rect is replaced by its pieces, every free rect is split against the packed rect, and the contained ones are pruned |
| MaxRects.SplitAllKeeps | Sources/TXPacker/MaxRects.cpp:113-120 | splitting free rects against the packed rect keeps the packing invariant and leaves none overlapping it |
| MaxRects.PlaceKeepsValid | Sources/TXPacker/MaxRects.cpp:106-130 | packing into the chosen rect keeps every free rect proper, none inside another, and the packing invariant |
| MaxRects.PruneKeeps | Sources/TXPacker/MaxRects.cpp:121-130 | pruning free rects that keep the packing invariant leaves the MaxRects invariant |
| MaxRects.CutKeeps | Sources/TXPacker/MaxRects.cpp:106-111 | the free rects once the chosen one is replaced by its pieces keep the packing invariant |
| MaxRects.Place | Sources/TXPacker/MaxRects.cpp:91-132 | once the area check passes: none when nothing fits; otherwise the rect at the corner of the chosen free rect is packed and the free set rearranged |
| MaxRects.Context.Initialize | Sources/TXPacker/MaxRects.cpp:71-80 | the whole bin is free, nothing is packed, the policy is recorded, and the invariant holds |
| MaxRects.Context.TryPack | Sources/TXPacker/MaxRects.cpp:86-133 | none (context unchanged) when the area check fails or nothing fits; otherwise the placed rect is packed, the free set is rearranged, and the invariant is kept |
| Skylines.CreateSkyline | Sources/TXPacker/Skyline.cpp:16-20 | one segment as wide as the bin, at height 0, which spans a bin of positive size |
| Skylines.SkippedAreNoPlaces | Sources/TXPacker/Skyline.cpp:33-38 | segments the inner scan jumps over when it meets a higher segment are no places |
| Skylines.FindPlacesToPack | Sources/TXPacker/Skyline.cpp:22-48 | the places found are in increasing order, and a segment is among them exactly when the size fits on it below `maxHeight` over enough width of no higher segments |
| Skylines.NonZeroArea | Sources/TXPacker/Skyline.cpp:69-70 | a lost area is kept exactly when its width and height are non-zero |
| Skylines.LostFromProper | Sources/TXPacker/Skyline.cpp:64-77 | every lost area has a positive width and height and reaches up to the base |
| Skylines.LostInBin | Sources/TXPacker/Skyline.cpp:64-77 | every lost area under a place lies in the bin, from the place's left edge down to the segments below the base |
| Skylines.LeftEdge | Sources/TXPacker/Skyline.cpp:57-89 | the loop leaves `x` at the total width of the segments before the place |
| Skylines.LostBelow | Sources/TXPacker/Skyline.cpp:65-71 | the area lost below one lower segment, kept only when it is not empty |
| Skylines.ComputeLostAreas | Sources/TXPacker/Skyline.cpp:50-78 | `computeLostAreas` returns the specified lost areas below the size packed on the place |
| Skylines.RaiseKeeps | Sources/TXPacker/Skyline.cpp:94-109 | raising the segments under the size keeps them positive, within the bin and of the same total width |
| Skylines.PlacedInBin | Sources/TXPacker/Skyline.cpp:91-92 | the rect `packIntoPlace` builds on a place of a skyline that spans the bin lies in the bin |
| Skylines.PackIntoPlace | Sources/TXPacker/Skyline.cpp:80-112 | the rect of the size sits at the left edge and height of the place, and the skyline is raised under it, the last segment split when needed |
| Skylines.PackKeepsSpans | Sources/TXPacker/Skyline.cpp:80-112 | packing on a place keeps the skyline spanning the bin |
| Skylines.PrefixKeeps | Sources/TXPacker/Skyline.cpp:84-92 | the segments before the place stay positive and bounded, and they and the rest make up the total width |
| Skylines.BestPlaceAsWritten | Sources/TXPacker/Skyline.cpp:114-135 | as written, the held lost area never drops below `FLT_MAX`, so the last place wasting less than that is chosen |
| Skylines.LastPlaceWastesMoreAsWritten | Sources/TXPacker/Skyline.cpp:121-133 | on a concrete skyline the written loop ends on a place wasting more than an earlier one |
| Skylines.BestPlaceToPack | Sources/TXPacker/Skyline.cpp:114-135 | none exactly when there is no place; otherwise a place wasting the least area, the lowest of those that tie, with its lost areas |
| Skylines.WastedPlacement | Sources/TXPacker/Skyline.cpp:156-160 | a rect packed in a wasted area's context, translated by the area's corner, lies inside the area |
| Skylines.TryWasted | Sources/TXPacker/Skyline.cpp:156-161 | a wasted area's context tries the size; it refuses exactly when the guillotine packer does, else the moved rect lies in the area |
| Skylines.PackWasted | Sources/TXPacker/Skyline.cpp:154-166 | the contexts are tried one by one until one takes the size: none exactly when every context refuses |
| Skylines.PackWastedAsWritten | Sources/TXPacker/Skyline.cpp:154-166 | as written, every context that accepts the size packs it, and each pack is recorded |
| Skylines.WastedTwiceAsWritten | Sources/TXPacker/Skyline.cpp:155-163 | with two 1 by 1 wasted areas, the written loop packs a 1 by 1 size twice |
| Skylines.NewWasted | Sources/TXPacker/Skyline.cpp:181-182 | a fresh guillotine context over the lost area's size, which accepts that size |
| Skylines.AddLost | Sources/TXPacker/Skyline.cpp:180-185 | the lost area gets a context of its own unless it already has one; the others are kept |
| Skylines.AddWasted | Sources/TXPacker/Skyline.cpp:179-186 | every lost area gets a context, existing ones are kept, and the added area is their sum |
| Skylines.PlaceOnSkyline | Sources/TXPacker/Skyline.cpp:171-189 | none (nothing changed) exactly when there is no place; otherwise the size goes on the best place and, with waste improvement, its lost areas become contexts; the rect and every new wasted area lie in the bin |
| Skylines.Context.Initialize | Sources/TXPacker/Skyline.cpp:137-147 | no contexts, the initial skyline, nothing packed, the sizes and flag recorded, and the invariant holds |
| Skylines.Context.PackOnSkyline | Sources/TXPacker/Skyline.cpp:168-189 | none (state unchanged) exactly when the area check fails or there is no place; otherwise the size goes on the best place and the packed area grows by its area and waste |
| Skylines.Context.TryPack | Sources/TXPacker/Skyline.cpp:153-190 | a wasted area's context that takes the size holds it; otherwise the skyline half; the rect is appended to the packed rects and lies in the bin; the invariant (which now includes every wasted area and packed rect lying in the bin) is kept |
| Skylines.Context.PackInWastedArea | Sources/TXPacker/Skyline.cpp:154-166 | the first loop as evidently intended: none exactly when every wasted area's context refuses the size; otherwise one rect, lying in a wasted area, is appended |
| Skylines.Context.PackInWastedAreaAsWritten | Sources/TXPacker/Skyline.cpp:154-166 | the first loop as written: one rect is appended for every context that accepts the size |
| Strings.SplitEach | Sources/TXPacker/Packer.cpp:298-312 | `boost::split` at every separator gives at least one piece |
| Strings.SplitEachCount | Sources/TXPacker/Packer.cpp:298-299 | there is one piece more than there are separators |
| Strings.SplitEachJoin | Sources/TXPacker/Packer.cpp:312 | joining the pieces with the separator gives the string back |
| Strings.JoinSplitEach | Sources/TXPacker/Packer.cpp:312 | pieces without the separator, joined with it, split back into the same pieces |
| Strings.Lower | Sources/TXPacker/Packer.cpp:143-145 | `to_lower_copy` keeps the length |
| Strings.LowerKeeps | Sources/TXPacker/Packer.cpp:143-145 | a string without capitals is its own lower-case form |
| Strings.LowerSpaces | Sources/TXPacker/Packer.cpp:143-146 | lower-casing does not change which characters are white space |
| Strings.DigitRun | Sources/TXPacker/Packer.cpp:227-266 | the run of digits `std::stoi` reads: digits only, up to the first non-digit |
| Strings.Stoi | Sources/TXPacker/Packer.cpp:226-238 | `std::stoi` gives a number in the range of `int`, and fails otherwise (also WinPackerDelegate.cpp:259-267) |
| Strings.Decimal | Sources/TXPacker/Packer.cpp:233-272 | `std::to_string` of a non-negative number is a non-empty run of digits |
| Strings.DecimalValueOfDecimal | Sources/TXPacker/Packer.cpp:233-272 | the digits written stand for the number |
| Strings.StoiDecimal | Sources/TXPacker/Packer.cpp:227-266 | `std::stoi` reads back what `std::to_string` writes |
| TextureNames.FileNameIsLast | Sources/TXPacker/WinPackerDelegate.cpp:233-235 | the file name is what follows the last '\\' of the path |
| TextureNames.Parts | Sources/TXPacker/WinPackerDelegate.cpp:236-237 | the file name split at runs of '.' gives at least one part, the last being the extension |
| TextureNames.KeptParts | Sources/TXPacker/WinPackerDelegate.cpp:239-247 | the kept parts are exactly the non-empty parts that are no option parts |
| TextureNames.GetTextureName | Sources/TXPacker/WinPackerDelegate.cpp:232-249 | the name is the kept parts before the extension joined with '.' |
| TextureNames.SplitJoin | Sources/TXPacker/WinPackerDelegate.cpp:237 | non-empty pieces without '.', joined, split back into the same pieces |
| TextureNames.NameSplitsIntoParts | Sources/TXPacker/WinPackerDelegate.cpp:232-249 | a texture's name splits at '.' into exactly the parts it was made of |
| TextureNames.OptionValue | Sources/TXPacker/WinPackerDelegate.cpp:259-264 | the number after an option part's prefix, when `std::stoi` reads one and it is not negative |
| TextureNames.SetTextureOptions | Sources/TXPacker/WinPackerDelegate.cpp:250-281 | each `-eN` part sets the extrusion and each `-bN` the border; the last readable one wins and the rest of the image stays |
| TextureNames.LaterOverrides | Sources/TXPacker/WinPackerDelegate.cpp:257-280 | a later option part overrides an earlier one; where later parts give no value, earlier ones stand |
| TextureNames.OptionPartSets | Sources/TXPacker/WinPackerDelegate.cpp:258-275 | a part `-e` or `-b` followed by a written number sets that option to the number |
| TextureNames.UnreadablePartIgnored | Sources/TXPacker/WinPackerDelegate.cpp:265-278 | a part whose number does not read leaves the option as it was |
| Packers.AlgorithmName | Sources/TXPacker/Packer.cpp:155-165 | each packing algorithm has a name `setOption` reads back as it |
| Packers.AlgorithmNamedOnly | Sources/TXPacker/Packer.cpp:155-165 | only the name of an algorithm reads as that algorithm |
| Packers.GuillotineFitName | Sources/TXPacker/Packer.cpp:166-176 | each guillotine fit policy has a name that reads back as it |
| Packers.GuillotineFitNamedOnly | Sources/TXPacker/Packer.cpp:166-176 | only that name reads as that policy |
| Packers.SplitName | Sources/TXPacker/Packer.cpp:177-193 | each guillotine split policy has a name that reads back as it |
| Packers.SplitNamedOnly | Sources/TXPacker/Packer.cpp:177-193 | only that name reads as that policy |
| Packers.MaxRectsFitName | Sources/TXPacker/Packer.cpp:194-206 | each MaxRects fit policy has a name that reads back as it |
| Packers.MaxRectsFitNamedOnly | Sources/TXPacker/Packer.cpp:194-206 | only that name reads as that policy |
| Packers.OrderingName | Sources/TXPacker/Packer.cpp:207-215 | each rect ordering has a name that reads back as it |
| Packers.OrderingNamedOnly | Sources/TXPacker/Packer.cpp:207-215 | only that name reads as that ordering |
| Packers.BooleanName | Sources/TXPacker/Packer.cpp:216-224 | each switch value has a name that reads back as it |
| Packers.BooleanNamedOnly | Sources/TXPacker/Packer.cpp:216-224 | only "true" and "1" read as on, only "false" and "0" as off |
| Packers.ConstraintName | Sources/TXPacker/Packer.cpp:239-249 | each size constraint has a name that reads back as it |
| Packers.ConstraintNamedOnly | Sources/TXPacker/Packer.cpp:239-249 | only that name reads as that constraint |
| Packers.KeyName | Sources/TXPacker/Packer.cpp:155-291 | every option has a name that selects it |
| Packers.KeyNamedOnly | Sources/TXPacker/Packer.cpp:155-291 | only the name of an option selects it |
| Packers.SetOptionChangesOnlyItsOwn | Sources/TXPacker/Packer.cpp:142-291 | an empty name or value and an unknown name change nothing; otherwise only the selected setting may change |
| Packers.NormalizeIdempotent | Sources/TXPacker/Packer.cpp:143-146 | lower-casing and trimming twice is doing it once |
| Packers.SetOptionNormalizes | Sources/TXPacker/Packer.cpp:143-146 | names and values are compared lower-cased and trimmed: any spelling with that normal form acts the same |
| Packers.SetKeyAgrees | Sources/TXPacker/Packer.cpp:155-291 | setting one option leaves every other as it is |
| Packers.SetKeyKeepsValid | Sources/TXPacker/Packer.cpp:225-238 | only a maximum size in [32, 8192] and a border and extrusion in [0, 32] are accepted, so valid options stay valid (also lines 250-277) |
| Packers.SetOptionKeepsValid | Sources/TXPacker/Packer.cpp:142-291 | `setOption` keeps valid options valid |
| Packers.OptionLineNeedsOneColon | Sources/TXPacker/Packer.cpp:293-304 | a line is used only when it is not blank and holds exactly one ':' |
| Packers.SetOptions | Sources/TXPacker/Packer.cpp:305-315 | without an options file nothing changes; otherwise every line of it is applied in order |
| Packers.ApplyLinesAppend | Sources/TXPacker/Packer.cpp:313-314 | later lines act on what earlier lines left, so a later line overrides an earlier one |
| Packers.ApplyLinesKeepsValid | Sources/TXPacker/Packer.cpp:305-315 | valid options stay valid whatever the options file holds |
| Packers.OptionLineSets | Sources/TXPacker/Packer.cpp:293-304 | a line `name: value` of plain strings sets the option `name` to `value` |
| Packers.SetKeyCopies | Sources/TXPacker/Packer.cpp:155-291 | the value written for each setting reads back as that setting |
| Packers.OptionsFileRoundTrip | Sources/TXPacker/Packer.cpp:142-315 | an options file listing every setting of `src` reads back as `src`, whatever the settings were before |
| Packers.Pad | Sources/TXPacker/Packer.cpp:317-324 | padding is twice the border plus extrusion, the image's own values overriding the options', and never negative |
| Packers.AddBorderExtrusion | Sources/TXPacker/Packer.cpp:317-326 | the size grows by the padding on each side length |
| Packers.AddBorderExtrusionRect | Sources/TXPacker/Packer.cpp:327-336 | the rect grows by the padding about its centre |
| Packers.RemoveBorderExtrusion | Sources/TXPacker/Packer.cpp:337-345 | the rect shrinks by the padding about its centre and stays well formed |
| Packers.RemoveAfterAdd | Sources/TXPacker/Packer.cpp:327-345 | removing the padding undoes adding it |
| Packers.AddAfterRemove | Sources/TXPacker/Packer.cpp:327-345 | adding the padding undoes removing it |
| Packers.InsertImage | Sources/TXPacker/Packer.cpp:360-362 | inserting one image keeps the multiset of images and goes before the first larger-keyed one |
| Packers.SortImages | Sources/TXPacker/Packer.cpp:360-362 | the sort is a permutation of the images |
| Packers.SortImagesSorted | Sources/TXPacker/Packer.cpp:360-362 | the sort orders the images by area, largest or smallest first as the option says |
| Packers.HasDuplicateName | Sources/TXPacker/Packer.cpp:352-359 | the check reports a duplicate exactly when two images share a name |
| Packers.StoredPacked | Sources/TXPacker/Packer.cpp:394-399 | every image stored in a texture was packed at its rect by the pass |
| Packers.RemainingShrinks | Sources/TXPacker/Packer.cpp:377-405 | a pass that packs or drops an image leaves fewer images for the next one |
| Packers.RemainingFrom | Sources/TXPacker/Packer.cpp:399-404 | every image left for the next pass is one of the pass's images |
| Packers.EmptyBinFits | Sources/TXPacker/Guillotine.cpp:106-136 | the empty bin fits exactly the sizes no larger than it (also MaxRects.cpp:86-133) |
| Packers.EmptySkylinePlace | Sources/TXPacker/Skyline.cpp:22-48 | the flat skyline of an empty bin is a place exactly for the sizes no larger than the bin |
| Packers.TryGuillotine | Sources/TXPacker/Packer.cpp:387-388 | `Guillotine::tryPack`: a rect of the size, placed at the bottom-left corner of the chosen free rect, appended to the packed rects and lying in the bin; nothing changes when it fails; into a fresh bin it succeeds exactly for sizes no larger than the bin |
| Packers.TryMaxRects | Sources/TXPacker/Packer.cpp:389-390 | `MaxRects::tryPack`: a rect of the size, placed at the bottom-left corner of the chosen free rect, appended to the packed rects and lying in the bin; nothing changes when it fails; into a fresh bin it succeeds exactly for sizes no larger than the bin |
| Packers.TrySkyline | Sources/TXPacker/Packer.cpp:391-392 | `Skyline::tryPack`: a rect of the size, either inside a wasted area or on a best place of the old skyline with the skyline raised under it; it is appended to the packed rects and lies in the bin; onto a fresh bin it succeeds exactly for sizes no larger than the bin |
| Packers.TryPackWith | Sources/TXPacker/Packer.cpp:384-392 | the chosen algorithm's `tryPack` on the padded size: a rect of that size lying in the bin of the maximum size, appended to that algorithm's packed rects (which stay as they were on failure); in a fresh bin it succeeds exactly when the size fits |
| Packers.ReadyPacked | Sources/TXPacker/Packer.cpp:369-374 | every rect the chosen algorithm of a pass has packed lies in the bin of the maximum size; the guillotine and MaxRects algorithms pack no two overlapping rects |
| Packers.FirstKept | Sources/TXPacker/Packer.cpp:377-382 | the position of the first image the pass does not drop |
| Packers.PlaceImage | Sources/TXPacker/Packer.cpp:378-404 | the image is dropped exactly when it is too large; otherwise its padded size is tried, and the rect placed is the algorithm's new rect with the padding removed (also Packer.cpp:394-397), so with the padding added back it lies in the bin; the first image kept in a pass is placed exactly when its padded size fits |
| Packers.PassStep | Sources/TXPacker/Packer.cpp:377-405 | one more image keeps the promises of the pass |
| Packers.PassDone | Sources/TXPacker/Packer.cpp:377-405 | a pass through all its images keeps its promises |
| Packers.PackPass | Sources/TXPacker/Packer.cpp:367-407 | one pass: fresh contexts over a bin of the maximum size, then each image dropped when too large, packed, or kept for later; the texture stores the packed ones, each of which lies in the bin with its padding; with the guillotine or MaxRects algorithm no two padded rects overlap |
| Packers.SlottedPacked | Sources/TXPacker/Packer.cpp:394-398 | the texture's rects, with the padding added back, are the algorithm's packed rects, so they lie in the bin and, where those do not overlap, do not overlap either |
| Packers.PassProgress | Sources/TXPacker/Packer.cpp:366-408 | a pass that checks the padded size packs or drops at least one image and keeps only images of the input; the texture it fills meets `Packs` |
| Packers.InternalPack | Sources/TXPacker/Packer.cpp:346-410 | an error exactly on a duplicate name; no images give no textures; each texture is numbered in order, holds only input images that fit the bin with their padding, each inside the bin with its padding, and with the guillotine or MaxRects algorithm no two padded images overlap |
| Packers.StallsAsWritten | Sources/TXPacker/Packer.cpp:377-405 | as written, an image that fits the bin but whose padded size does not is kept for the next pass forever |
| Packers.BoundsUnique | Sources/TXPacker/Packer.cpp:416-424 | the union of the padded rects does not depend on the order they are joined in |
| Packers.Pow2 | Sources/TXPacker/Packer.cpp:428-430 | a power of two is at least one |
| Packers.ComputeImageSize | Sources/TXPacker/Packer.cpp:412-434 | the maximum size when fixed; otherwise the union of the padded rects, or the smallest square power of two covering it |
| Packers.SingleBounds | Sources/TXPacker/Packer.cpp:422-423 | one padded rect is its own union |
| Packers.UnionBounds | Sources/TXPacker/Packer.cpp:420-421 | joining one more padded rect to a union gives the union of both |
| Packers.EmptyTextureAsWritten | Sources/TXPacker/Packer.cpp:404-426 | as written, a pass that packs nothing still pushes a texture, whose image size cannot be computed |

## Left out

- Vectors, Rects, Polygons, Intersections, Overlaps, RayCasts: `float` is modelled as exact `real`; rounding, overflow to infinity and NaN are not modelled, and `aeq` with its tolerance `SbEpsilon` is taken as exact equality (for instance `Intersections.RayRay` tests `dt == 0.0` where Intersection.cpp:23 tests `aeq(dt, 0)`).
- Rects.FloatMax: `numeric_limits<float>::max()` is kept as a constant; the sentinel start of the scans is not replaced by an infinity.
- Intersections.CircleCircle, Intersections.RaySegment, Lines.Normalized: normalising or dividing by a zero length gives NaN in the source; the model returns the zero vector (or no hit) instead.
- Intersections, RayCasts, Overlaps: square roots are a parameter `sqrt` constrained by its defining property (`IsSqrt`), not computed.
- RayCasts.RayPolygon: requires a convex polygon with a known winding (Polygons.IsConvexSpec), which Intersection.cpp:366 does not assert; on other polygons the corner tests that consult normals and containment are not modelled.
- Polygons: `centroid`, `perimeter`, `isSimple`, `closestEdgeFrom`, `toConvex` and the containment test of non-convex polygons rely on Boost.Geometry or trigonometry and are not modelled.
- Colors: the HSL and HSV conversions are not modelled; only the channel-wise arithmetic is.
- Colors.Divided: requires non-zero channels; a float division by zero gives an infinity, which the exact model cannot represent.
- Matrices: `fromRotation`, `setScale` and `setRotation` use `sin`, `cos` and `atan2` and are not modelled.
- Beziers.RenderCurve: the recursion of `renderCurve` is bounded by a depth (fuel), because a degenerate curve whose control points coincide is never flat (Beziers.PointCurveNeverFlat) and the source would recurse forever on it.
- Shapes.Shape.FromPolygon: takes the convex polygon to store; the convex hull the source computes with Boost.Geometry is taken as given.
- StaticTrees.Entry, DynamicIndex.Registry, SpatialTrees.EntryOf: the tree records a shape's bounds, type mask and geometry when the shape is added or the static tree is rebuilt; the source reads `typeMask()`, `bounds()` and the geometry live (SpatialTree.cpp:494-496, 711-717, 737-744), so a shape whose type mask is changed while registered is not modelled.
- SpatialTrees.SpatialTree.RemoveDynamicNode, SpatialTrees.SpatialTree.TransformDynamicNode, SpatialTrees.SpatialTree.RemoveNode: require the shape's current bounds to be those it was registered with; the source erases with the current bounds, and a shape moved behind the tree's back leaves stale cells, which the model does not cover.
- SpatialTrees.SpatialTree.AddDynamicNode, SpatialTrees.SpatialTree.AddToDynamicTable: require fewer than 2^64 - 1 registered dynamic shapes, so the `size_t` counts of the grid never wrap.
- SpatialTrees, DynamicTables: iteration over `unordered_set` and `unordered_multimap` is modelled as iteration in sequence order over duplicate-free sequences; the hash order is not modelled.
- StaticTrees.SortBy: `std::sort` (not stable) is modelled as one insertion sort; the order among entries with equal keys may differ.
- SpatialQueries.RayResult, SpatialTrees.SpatialTree.RayCast: the walk through the dynamic grid (`internalDynamicRayCast`, SpatialTree.cpp:613-691) is a parameter `dynamicCast`; only the merge with the static cast is modelled.
- SpatialTrees.SpatialTree: the destructor and the tree's memory management are not modelled.
- Guillotines.Context.Initialize, MaxRects.Context.Initialize, Skylines.Context.Initialize: require a bin of positive size (for the skyline a positive width), which every caller in the packer passes; the source does not check it.
- Guillotines, MaxRects: `std::unordered_set` of free rects is iterated in an unspecified order; the search loop is proved for every order.
- MaxRects.Context.TryPack: `packedArea` is never increased by the source, so the area check only compares the new rect with the bin; the model keeps that.
- Skylines.Context: the skyline `std::list` and its iterators are a sequence of segments and segment positions; the contexts in the wasted-area map are held by reference, as objects.
- Skylines.Context.Valid: does not state that the packed rects and the wasted areas never overlap one another; it states that the skyline spans the bin, that every wasted area has a context of its own, and that the wasted areas and the packed rects lie in the bin.
- Packers.PackPass, Packers.InternalPack, Packers.TrySkyline: with the skyline algorithm the padded rects of a texture are proved to lie in the bin but not to be apart, since the skyline invariant above does not carry non-overlap.
- StateManagers.StateManager: the caches are modelled by the sets of ids they hold locked; the ids they hand out, the device objects and `commit` (device calls) are not modelled.
- StateManagers.RenderTargetBundle: `SbRenderTargetBundle` is `(size_t)-1` on a 64-bit target.
- Packers: logging, `pack()` and `generateOptionsFile` are I/O through the delegate (Packer.cpp:68-84, 86-127) and are not modelled; their texts are not part of the model.
- Packers.InternalPack: the delegate's `allPackableImages` and `getImageSize` read files through GDI+ and Win32; the images are a parameter (`Sized`: no negative side).
- Packers.SortImages: `std::sort` (not stable) is modelled as one insertion sort; the order among images of equal area may differ.
- Packers.InternalPack: does not state that every image that fits is eventually packed; the texture map is keyed by rect, so two images stored at the same rect would collide (apartness rules this out only for images with a positive padded area), which the model does not exclude.
- Packers.SetOption: `setOutputDir` on the delegate is modelled as the setting `outputDir`; the test for an empty output name cannot fire after the empty-value test (Packer.cpp:152, 283) and so is not modelled separately.
- Packers.ComputeImageSize: the union is taken over the map's keys; the order of `unordered_map` iteration does not matter (Packers.BoundsUnique).
- TextureNames: the file system walk of `getAllImageFilenames` and the GDI+ encoder lookup are not modelled.
- Batchers.DynamicBatcher: `draw`, `compile`, `reallocDXBuffers`, `updateDXBuffers` and `setVertexBuffers` create and fill Direct3D buffers and issue draw calls, which the model does not cover; `dirty` is only set.
- Batchers.DynamicBatcher: offsets are counted in elements rather than bytes; the vertex byte strides and the vertex descriptions passed to `begin`, and the asserts comparing them, are not modelled.
- Batchers.DynamicBatcher: the CPU buffers are sequences that grow as they are written; the capacity that `ensureBufferSize` manages is modelled separately in Batchers.EnsureBufferSize.
- Batchers.DynamicBatcher.BatchInstance: takes the instance's vertex data rather than a mesh.
- Batchers.DynamicBatcher: `batchMeshes` and `batchInstances` only repeat `batchMesh` and `batchInstance` over a list and are not modelled separately.
- Batchers.ComputeBufferTarget: the growth factor is applied in exact rationals, not in `double`.
- LinearCaches.LinearCache.Compress: the order `std::sort` leaves (it is not stable) is a parameter constrained to be a by-counter permutation of the list.
- LinearCaches.LinearCache: `size_t` wrap-around of the counter and the seed is not modelled (counters and ids are unbounded naturals).
- LinearCaches.LinearCache: the mapper's `operator()` and `destroy` are foreign calls; building is a function parameter and destruction is recorded in the `destroyed` log.
- LinearCaches.LinearCache: the `DXContext` handle and its `assert` are not modelled.
- Meshes.Mesh: the vertex byte stride and `memcpy` on raw bytes are not modelled; vertices are values of a type parameter.
- Meshes.Mesh: the growth factor is applied in exact rationals, not in `double`; rounding of large capacities is not modelled.
- Meshes.Mesh.Merge: the other mesh's contents are read before anything is written, so merging a mesh into itself behaves as if it were copied first. The source reads through addresses that a reallocation may free.
- Meshes.Mesh: the destructor and `delete[]` only release memory, which the model does not track.
- Meshes.Mesh: the contents beyond the count of a freshly grown buffer are unspecified in the source and default-initialised in the model.
- TextureAtlases.CreateFromString: `std::stof` is a parameter `stof` (None where it throws); a thrown exception becomes a `None` result.
- TextureAtlases.CreateFromString: a texture line before any non-zero `@@TX_SELF` size divides by zero, which in floats gives infinities or NaN (and trips `Rect`'s assertion for NaN); the model stops with `ZeroAtlasSize` instead, and with `NegativeSize` where the assertion on a negative size would fire.
- TextureAtlases.AllTextures: the order of `unordered_map` iteration is unspecified; the model picks any order.

## Findings

Each row names a member that models the code as written, with a lemma or counterexample showing the discrepancy, and the corrected member the rest of the model uses.

| source | as written | input that shows it | evidently intended | confidence | as-written member | corrected member |
|---|---|---|---|---|---|---|
| Sources/SBEditor/Mesh.h:71-73 | when only this mesh has indices, `IB()[i] = i + vb_start` counts `i` from the old index count | this mesh: one vertex with index 0; other: one vertex without indices; the merged indices are 0 and 2 over two vertices | `i - ib_start + vb_start`, giving 0 and 1 | high; not executed | Meshes.MergeAsWrittenOutOfRange | Meshes.Mesh.AppendRun |
| Sources/SBEditor/LinearCache.h:44-45 | a hit on an uninitialised entry rebuilds its output but leaves `initialized` false | an entry freed by `compress` is hit by `get`, then `releaseAll(true)` drops it without destroying the rebuilt output | also set `initialized = true` | high; not executed | LinearCaches.RebuiltOutputLeaksAsWritten | LinearCaches.GetOutputDestroyedOnRelease |
| Sources/SBEditor/DynamicBatcher.cpp:509-512 | `ensureBufferSize` calls `malloc` when a buffer exists and `realloc` when it does not, and never stores the new size | a buffer of 16 holding data grows to 32: its data is lost; an empty buffer grown to 8 still records size 0 | `realloc` the existing buffer and record the new size | high; not executed | Batchers.EnsureBufferSizeAsWrittenForgets | Batchers.EnsureBufferSize |
| Sources/SBEditor/DynamicBatcher.cpp:285-288 | `_beginInstances` copies the model's vertices but does not advance the model offset | an instanced model followed by a batched mesh: the mesh's vertex overwrites the model's | advance the model offset as `_batchMesh` does | high; not executed | Batchers.InstancedModelOverwrittenAsWritten | Batchers.DynamicBatcher.BeginInstances |
| Sources/SBEditor/DynamicBatcher.cpp:302-306 | `_batchInstance` copies the instance but does not advance the instance offset | two instances in one call: the second overwrites the first | advance the instance offset by the instance's size | high; not executed | Batchers.InstancesOverwrittenAsWritten | Batchers.DynamicBatcher.BatchInstance |
| Sources/SBEditor/SpatialTree.cpp:342-343 | `staticBestPartition` computes both candidate partitions with `staticHorizontalPartition`, so the vertical partition is never tried | three stacked squares sharing their right edge: as written they stay in one terminal node | `vr` from `staticVerticalPartition`, which splits the upper two squares from the lower one | high; not executed | StaticTrees.StackedShapesAsWritten | StaticTrees.BestPartition |
| Sources/SBEditor/Intersection.cpp:319-327,541-549 | the circle loops compare the face distance `currentT` with `t`, which holds a squared depth | a 6 by 8 rect and a unit circle at its centre: a face step of distance 4 keeps depth 16, then a face step of distance 5 replaces it because 5 < 16, giving depth 25 and the wrong normal | compare `currentT * currentT < t`, keeping depth 16 and the first face's normal | high; not executed | Overlaps.MixedUnitsAsWritten | Overlaps.CircleContact |
| Sources/SBEditor/Intersection.cpp:162,169 | at a corner the ray-rect cast reads `b.normal(i - 1)` and `b.normal(i + 1)` without wrapping | a ray rising along the right side of a rect from below: its crossing at the bottom-right corner on the last edge is kept, with the bottom normal, although the ray only grazes the corner | the wrapped neighbours `normal(i - 1, true)` and `normal(i + 1, true)`, which reject the corner | medium; not executed | RayCasts.RectCornerFinding | RayCasts.RayRect |
| Sources/SBEditor/Intersection.cpp:380,387 | the ray-polygon cast reads `b.normal(i - 1)` at the first edge and `b.normal(i + 1)` at the last edge, outside the normal list | the same rect as a four-edge polygon and the same ray: `normal(4)` is read | the wrapped neighbours | medium; not executed | RayCasts.PolygonNeighbourFinding | RayCasts.RayPolygon |
| Sources/SBEditor/Rect.h:164-167 | a negative index that is a multiple of four wraps to 4, which the corner switch answers with the bottom-left corner | `point(-4, true)` | index 0, the bottom-right corner | high; not executed | Rects.PointWrapMinusFour | Rects.Point |
| Sources/SBEditor/Polygon.h:103-107 | a negative index that is a multiple of the point count wraps to the count, one past the last point | `point(-n, true)` on a polygon of n points | index 0 | high; not executed | Polygons.PointWrapOutOfRange | Polygons.Point |
| Sources/SBEditor/Polygon.cpp:127-131 | the same wrapping in `edge` selects edge `edgeCount`, which reads past the point list | `edge(-edgeCount, true)` | edge 0 | high; not executed | Polygons.EdgeWrapOutOfRange | Polygons.Edge |
| Sources/SBEditor/Rect.h:38-39,58-59 | the bounds of a list of points start their maxima at `numeric_limits<float>::min()`, the smallest positive float | the points (-2, -2) and (-1, -1): the right edge is reported at FLT_MIN instead of -1 | start the maxima at the lowest float (or at the first point) | high; not executed | Rects.FromPointsNegative | Rects.FromPoints |
| Sources/SBEditor/Polygon.cpp:187 | `bounds()` starts its maxima at FLT_MIN in the same way | the triangle (-3, -3), (-1, -3), (-2, -1): the top is reported at FLT_MIN instead of -1 | tight bounds of the points | high; not executed | Polygons.BoundsNegative | Polygons.Bounds |
| Sources/SBEditor/Matrix3x3.h:423-428 | `transformedRect` takes the bounds of the corners through `Rect(points, 4)`, so it inherits the FLT_MIN start | a rect translated so that its top is at or below 0: the top is reported at FLT_MIN | the translated top | high; not executed | Matrices.TransformedRectBelowOrigin | Matrices.TransformedRect |
| Sources/SBEditor/Option.h:207-212 | `operator==(Option, nullptr)` answers false for an empty Option and `!hasValue()`, also false, for a full one | any empty Option compared with `nullptr` | true exactly for the empty Option | high; not executed | Options.EmptyIsNotNullAsWritten | Options.IsNull |
| Sources/TXPacker/Guillotine.cpp:122 | the no-fit test `previousF == nullptr` uses that operator, so it never fires | a size that fits no free rect: the code goes on to read the value of an empty Option | the emptiness test | high; not executed | Guillotines.NoFitMissedAsWritten | Guillotines.ChooseFree |
| Sources/TXPacker/Skyline.cpp:124-125 | the better lost area is assigned the wrong way round (`area = lostAreaValue`), so the bound stays at FLT_MAX and the last place wasting less than FLT_MAX is chosen | the skyline of widths 2, 1, 1 at heights 0, 1, 0 and a 2 by 1 size: the second place, wasting a 1 by 1 area, is chosen over the first, wasting nothing | `lostAreaValue = area` | high; not executed | Skylines.LastPlaceWastesMoreAsWritten | Skylines.BestPlaceToPack |
| Sources/TXPacker/Skyline.cpp:155-163 | the loop over the wasted areas does not stop when one of them packs the rect | two 1 by 1 wasted areas with fresh contexts and a 1 by 1 size: it is packed twice and recorded twice | stop at the first wasted area that packs the rect | high; not executed | Skylines.WastedTwiceAsWritten | Skylines.PackWasted |
| Sources/TXPacker/Packer.cpp:378-380 | the size check compares the image's own size with the maximum, but the packers get the padded size | a 4096 by 4096 image with the default border 1 and extrusion 2: never dropped, never packed, so the outer loop never ends | check the padded size | high; not executed | Packers.StallsAsWritten | Packers.InternalPack |
| Sources/TXPacker/Packer.cpp:406,425-426 | a pass that packs nothing still pushes its texture, and `computeImageSize` then reads the union of no rects | a single 5000 by 5000 image: it is dropped, an empty texture is pushed, and its size reads an empty Option | push only textures that hold images | high; not executed | Packers.EmptyTextureAsWritten | Packers.InternalPack |
