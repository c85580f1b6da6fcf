# Verified models of the media-centre core

Dafny 4.11 models of six parts of the repository, each proved against an independent description of what
it is for. `dafny verify dfyconfig.toml` checks everything.

- **SVG rasterizer** (`Bezier`, `Flatten`, `Flatness`, `Paths`, `Shapes`, `Corners`, `Winding`, `ActiveList`, `Spans`, `Scanline`,
  `Coverage`, `Geometry`, `Raster`, `Blend`, `Defringe`, `PagePool`, `Render`). Curves are flattened to points on the
  curve, loops of points become edges whose directions cancel on every scanline, the sweep keeps an exact sorted
  list of crossing edges at stepped fixed-point positions, the fill rules turn that list into an inside that agrees
  with the loops' own geometry away from the edges, coverage measures it, and blending keeps the image
  premultiplied. `Render.FilledCoverage` and `Render.RasterizeFull` join these end to end.
- **Text decoders** (`WordBits`, `Freesat`, `FreesatEncoding`, `Utf8`, `CodePoints`, `ReplaceAll`, `ReplaceExact`, `SingleByte`, `PopCount`, `Big5`).
- **Main loop timers** (`Timespecs`, `TimerQueue`, `Timers`).
- **Message pump** (`MessagePump`): all interleavings of its atomic steps, and the object itself.
- **Byte stores** (`IoBuffer`, `RawFile`, `CachedSource`).
- **CRC** (`Crc32`, `CrcDivision`). `Common` holds what several models share.

Objects that the source changes in place are classes here, and loops are loops, each tied to a function on values about
which the properties are proved. Lists are sequences; `double` is `real`.

Where a property does not hold of the code, the model keeps the code's behaviour, one lemma gives an input that shows it, and
another gives the exact condition:

- an edge's step is rounded once and the error grows with every step, so a shape can vanish (`Geometry.SliverVanishes`); `Geometry.DriftIs` is the exact error of a position, and `Geometry.EvenOddAgreesIff` and `Geometry.NonZeroAgreesIff` say exactly where the result is that of the loops;
- flattening drops the parts of a curve that are not flat by level 10, a curve of four equal points altogether (`Flatten.PointCurveVanishes`, `Flatten.PiecesCover`), where flat means what `Corners.FlatIff` says;
- a due repeating timer whose interval is not positive keeps the dispatch loop busy forever (`TimerQueue.ZeroIntervalHangs`, `TimerQueue.PassEndsIff`);
- 2^32 events found by one read of the eventfd are counted as none (`MessagePump.Stranded`, `MessagePump.DrainedIffSmallReads`);
- a Freesat text is cut short where 32 zero bits follow a symbol (`FreesatEncoding.ZeroCodeCutShort`, `FreesatEncoding.RunDecodes`);
- truncation gives up a first character that is exactly as long as the new size, and size 0 leaves the string whole (`Utf8.WholeCharGivenUp`, `Utf8.TruncateUTF8`);
- a table byte whose code needs three bytes is lost in conversion (`SingleByte.LongCodeLost`, `SingleByte.RoundTripForTable`);
- the UTF-8 branch of `replace_all` can stand still or miss a match on ill-formed text (`ReplaceAll.IllFormedText`, `ReplaceExact.WalkEndsIff`, `ReplaceExact.WalkIsPlainIff`);
- `searchchr` compares an unsigned byte with a char; where the platform's char is signed it finds ASCII only (`IoBuffer.HighByteMissed`, `IoBuffer.IOBuffer.SearchChr`);
- a recording whose first file is empty reads as empty (`RawFile.HiddenRecording`, `RawFile.ReadableIff`);
- a negative delay is kept as the interval, and a negative interval can leave `tv_nsec` out of range (`Timespecs.RangeLeft`, `Timespecs.AddMsecMoves`, `Timespecs.SubMsecMoves`).

The comment at `lib/base/message.h:67-69` says the event count stays below 2^32; the model does not rely on it.
The comment at `include/nanosvgrast.h:1206` and `:1450` speaks of the non-zero rule only; the code passes the shape's own fill rule, as the model does.

## Model

| member | source | states |
|---|---|---|
| `Bezier.HalvesReparametrise` | include/nanosvgrast.h:353-383 | each half of a midpoint split traces exactly its half of the cubic, at every parameter, with the curve's meaning taken from the Bernstein form |
| `Flatten.FlattenedIsPieces` | include/nanosvgrast.h:344-384 | the recursive flattening adds exactly the end points of the flat leaves of the subdivision, left to right |
| `Flatten.PiecesOrdered` | include/nanosvgrast.h:344-384 | the leaves are disjoint stretches of the curve in increasing order |
| `Flatten.PiecesTrace` | include/nanosvgrast.h:344-384 | every leaf passed the flatness test and traces its own stretch of the original curve |
| `Flatten.PiecesCover` | include/nanosvgrast.h:344-384 | a 1024th of the curve is covered by a leaf if and only if some subcurve on the way down to it, to level 10, passes the flatness test; else the code drops it |
| `Flatten.PointCurveVanishes` | include/nanosvgrast.h:364-370 | a curve whose four control points coincide never passes the test and adds nothing at all |
| `Flatness.FlatIsNear` | include/nanosvgrast.h:359-367 | the squared distance of every point of a curve that passes the test from its chord's line, times the chord's squared length, is below the tolerance times that length |
| `Flatness.PieceIsNear` | include/nanosvgrast.h:344-384 | so every leaf's stretch of the original curve is that near to the leaf's chord, which joins the curve's points at its ends |
| `Flatness.AddedEndsLeaf` | include/nanosvgrast.h:248-271 | every point added ends a leaf, and follows a point that is the end of the leaf before or within the distance tolerance of it |
| `Flatness.FilledSegmentIsNear` | include/nanosvgrast.h:248-384 | the segment between consecutive points of a flattened curve ends where its leaf ends and starts where the leaf starts, or within the distance tolerance of that after a merge, unless a stretch before it was dropped; the leaf's stretch of the curve is near the chord |
| `Flatten.AddAllSelects` | include/nanosvgrast.h:248-271 | adding points keeps the earlier positions and keeps a subsequence of the new ones: a point within tolerance of the previous one only merges its flags |
| `Flatten.FlattenedOnCurve` | include/nanosvgrast.h:344-384 | every point one top-level call appends is the curve at some k/1024, with k strictly increasing, at most 1024 of them, and the earlier points stay where they are |
| `Corners.FlatIff` | include/nanosvgrast.h:364-370 | the test holds if and only if the curve's ends differ and the distances of its two inner control points from the line through its ends add up to less than the root of the tolerance |
| `Corners.OnePieceIff` | include/nanosvgrast.h:344-384 | flattening makes the whole curve one piece if and only if that is so |
| `Corners.PieceIsClose` | include/nanosvgrast.h:344-384 | wherever flattening puts a straight line, the stretch of curve it replaces is nearer to that line than the root of the tolerance |
| `Corners.AddPointTakes` | include/nanosvgrast.h:248-271 | a point whose squared distance from the last is below the squared tolerance only leaves its flags there, any other is appended |
| `Corners.LineFlattens` | include/nanosvgrast.h:344-384 | flattening a straight segment between two points takes up its end and adds no other point |
| `Corners.PointFlattens` | include/nanosvgrast.h:344-384 | flattening a segment from a point to itself adds nothing |
| `Corners.StraightLoop` | include/nanosvgrast.h:391-400 | the loop of a path of straight segments is its scaled corners in order and the start again, less those nearer than a hundredth to the corner kept before them; repeated corners included |
| `Corners.EndIsCorner` | include/nanosvgrast.h:391-400 | a segment that ends with a flat subcurve has its scaled end, or a point nearer than a hundredth to it, among the corners of the loop |
| `Paths.AffineInvariance` | include/nanosvg.h:548-552 | transforming the control points transforms every point of the curve |
| `Paths.XformColumns` | include/nanosvg.h:548-552 | the origin goes to the translation and the unit vectors to the columns from there |
| `Paths.LineIsStraight` | include/nanosvg.h:731-743 | the cubic stored for a line runs along the segment at constant speed |
| `Paths.PathParser.MoveTo` | include/nanosvg.h:721-729 | a second move in a row replaces the start point, a first one appends it |
| `Paths.PathParser.LineTo` | include/nanosvg.h:731-743 | appends the three points of the straight cubic, and nothing when there is no current point |
| `Corners.StraightOn` | include/nanosvg.h:731-743 | appending a line keeps a path straight |
| `Paths.PathParser.CubicBezTo` | include/nanosvg.h:745-752 | appends the three points, and nothing when there is no current point |
| `Paths.PathParser.AddPath` | include/nanosvg.h:1032-1090 | a path is committed exactly when it has a segment; it then has 1+3N points, is closed by a line when asked, and is the transform of the parsed points |
| `Corners.StraightXform` | include/nanosvg.h:1032-1090 | transforming a straight path gives the straight path through the transformed corners |
| `Shapes.CommittedDrawable` | include/nanosvg.h:1032-1090 | a path with a segment can be drawn once it is committed, closed or not |
| `Shapes.ScaledCurve` | include/nanosvgrast.h:394-398 | flattening the scaled control points gives points of the scaled curve |
| `Shapes.SegmentsOnPath` | include/nanosvgrast.h:391-400 | all points added for a path lie on the scaled path |
| `Shapes.LoopOnPath` | include/nanosvgrast.h:391-403 | every corner of a loop that is filled is a point of the scaled path |
| `Shapes.Flattener.AddPathPoint` | include/nanosvgrast.h:248-271 | merges with the last point within tolerance, else appends |
| `Shapes.Flattener.FlattenCubicBez` | include/nanosvgrast.h:344-384 | the recursive method leaves the point list the subdivision function gives |
| `Shapes.Flattener.AddEdge` | include/nanosvgrast.h:296-329 | skips horizontal segments; stores others downwards with direction 1 or -1 |
| `Shapes.Flattener.FlattenPath` | include/nanosvgrast.h:391-400 | the point list becomes the closed loop of the path |
| `Shapes.Flattener.BuildEdges` | include/nanosvgrast.h:401-403 | appends the loop's edges, the closing one first |
| `Shapes.Flattener.FlattenShape` | include/nanosvgrast.h:386-405 | appends the edges of all loops of the shape |
| `Winding.ShapeDirSum` | include/nanosvgrast.h:296-329 | on every scanline the directions of the crossing edges of closed loops sum to zero and their number is even |
| `Winding.PlacedDirSum` | include/nanosvgrast.h:1437-1444 | scaling and translating into sub-scanline units preserves both, at the corresponding height |
| `Winding.DirSumPermuted` | include/nanosvgrast.h:859-867 | sorting the edges changes neither the sum nor the number |
| `Winding.ShapeEdgesWellFormed` | include/nanosvgrast.h:296-329 | every stored edge runs strictly downwards and has direction 1 or -1 |
| `ActiveList.FirstScanIsFirst` | include/nanosvgrast.h:1182-1183 | an edge is entered at the first sub-scanline whose centre it crosses |
| `ActiveList.RoundIs` | include/nanosvgrast.h:886-891 | roundf: the nearest integer, halves away from zero |
| `ActiveList.XAtStep` | include/nanosvgrast.h:1158-1158 | repeated steps give an x that depends on the edge and the sub-scanline alone; Geometry.DriftIs relates it to the edge's line |
| `ActiveList.KeptExact` | include/nanosvgrast.h:1149-1161 | removing and advancing turns the exact list of one sub-scanline into the exact list of those edges that also cross the next |
| `ActiveList.InversionsSwapped` | include/nanosvgrast.h:1168-1175 | swapping two neighbours out of order removes exactly one inversion |
| `ActiveList.SwapPass` | include/nanosvgrast.h:1165-1178 | one pass permutes the list, and unless nothing changed, and then it is sorted, it lowers the inversion count |
| `ActiveList.Resort` | include/nanosvgrast.h:1164-1179 | the passes end, with the same edges sorted by x |
| `ActiveList.Insert` | include/nanosvgrast.h:1187-1201 | insertion adds one edge and keeps the order of x |
| `ActiveList.EnteredExact` | include/nanosvgrast.h:1182-1204 | entering the edge at the cursor keeps the list exact for the edges before the cursor |
| `ActiveList.SkippedExact` | include/nanosvgrast.h:1182-1204 | leaving out an edge that also ends by this sub-scanline keeps it exact |
| `Spans.SpansAreInside` | include/nanosvgrast.h:936-968 | when the whole list cancels, the scan ends with w = 0 and its ordered spans are exactly the positions where the sum to the left satisfies the fill rule |
| `Spans.CoverSumBounds` | include/nanosvgrast.h:906-934 | one sub-scanline's contribution to a pixel is the weighted covered length, short of it by less than one unit for each span met |
| `Spans.CoverSumBound` | include/nanosvgrast.h:906-934 | one sub-scanline adds at most the full weight of 51 to a pixel |
| `Spans.MeetingAre` | include/nanosvgrast.h:906-934 | the spans counted as meeting a pixel are exactly those with a position in common with it |
| `Spans.OverlapIsMeasure` | include/nanosvgrast.h:906-934 | the spans' covered length in a pixel is the number of fixed-point positions at which the fill rule holds |
| `Spans.SumUpToIsEdgeSum` | include/nanosvgrast.h:936-968 | sums over the active list are sums over the crossing edges, whatever the list's order |
| `Scanline.FillScanline` | include/nanosvgrast.h:906-934 | adds one span to the row pixel by pixel, wrapping as the byte casts do, and widens the reached range |
| `Scanline.FillActiveEdges` | include/nanosvgrast.h:936-968 | the row afterwards is the row before plus the cover of all spans of the list, and every touched pixel lies in the reached range |
| `Scanline.NothingOutside` | include/nanosvgrast.h:1211-1215 | pixels outside the reached range get nothing |
| `Coverage.LoopsCancel` | include/nanosvgrast.h:386-405 | edges built from closed loops, placed and sorted, cancel on every sub-scanline |
| `Coverage.SweepSpans` | include/nanosvgrast.h:1144-1209 | on every sub-scanline of a sweep no span stays open and the spans are exactly where the fill rule holds of the edges at their stepped fixed-point positions |
| `Coverage.RowTotalBound` | include/nanosvgrast.h:1137-1137 | n sub-scanlines never add more than n weights |
| `Coverage.RowCoverage` | include/nanosvgrast.h:1140-1209 | the row's coverage is the weighted measure of the inside at the stepped positions, up to the rounding of each span met |
| `Coverage.RowExtremes` | include/nanosvgrast.h:1140-1209 | sub-scanlines that fill a pixel with a single span add their full weights, and ones that miss it add nothing |
| `Geometry.LineThroughEnds` | include/nanosvgrast.h:884-891 | an edge's line goes through its two ends, and uniformly between them |
| `Geometry.LineSide` | include/nanosvgrast.h:884-891 | a point is at or right of that line exactly when the two ends and the point turn the right way, a test by products alone |
| `Geometry.DriftIs` | include/nanosvgrast.h:884-891 | an edge's stepped position is off its true line by exactly its rounding at entry plus the rounding of its step, once for every step |
| `Geometry.ErrorBound` | include/nanosvgrast.h:884-891 | so it is at most half a unit of 1/1024 pixel and, once for each step, the error of the edge's own step |
| `Geometry.VerticalStays` | include/nanosvgrast.h:884-891 | a vertical edge stays within half a unit of its line on every sub-scanline |
| `Geometry.DriftBound` | include/nanosvgrast.h:884-891 | for any edge it is within (1 + steps)/2 units |
| `Geometry.LoopsTrueSum` | include/nanosvgrast.h:296-329 | summed over the stored edges at their true positions, the winding sum is that of the loops' own segments, whose crossings are told by the sign of a product and no slope |
| `Geometry.PlacedTrueSum` | include/nanosvgrast.h:1437-1444 | placing the edges moves the sum to the corresponding point of the plane |
| `Geometry.EdgeSumIsTrueSum` | include/nanosvgrast.h:936-968 | for every list of edges, rule and position the sweep's sum is the sum at the true positions and what rounding has carried across the position |
| `Geometry.InsideIsExact` | include/nanosvgrast.h:1144-1209 | the sweep's inside is exactly the fill rule on the loops' own winding sum and what was carried |
| `Geometry.EvenOddAgreesIff` | include/nanosvgrast.h:1144-1209 | by the even-odd rule sweep and loops agree at a position if and only if an even number of edges is carried across it |
| `Geometry.NonZeroAgreesIff` | include/nanosvgrast.h:1144-1209 | by the non-zero rule they agree if and only if the carried sum is zero, or neither the winding nor the winding with it is |
| `Geometry.InsideIsTrue` | include/nanosvgrast.h:1144-1209 | where no edge is carried they agree by either rule |
| `Geometry.CarriedFew` | include/nanosvgrast.h:884-891 | an edge is carried across fewer positions than its own error and one, so across none when its position is exact |
| `Geometry.OffBySmall` | include/nanosvgrast.h:884-891 | that error is at most half a unit, and half a unit for each sub-scanline the edge has come down |
| `Geometry.CarryBoundNone` | include/nanosvgrast.h:1144-1209 | where no edge crosses, the bound on carried positions is nothing |
| `Geometry.PixelIsTrue` | include/nanosvgrast.h:1144-1209 | a pixel's measure under the sweep and under the loops' geometry differ by at most the positions across which an edge is carried |
| `Geometry.CarriedIsBounded` | include/nanosvgrast.h:1144-1209 | those positions are at most the crossing edges' own errors, and one for each such edge |
| `Geometry.TotalIsTrue` | include/nanosvgrast.h:1144-1209 | the same over the sub-scanlines of a row |
| `Geometry.SliverVanishes` | include/nanosvgrast.h:886-889 | a triangle over two pixels wide at its foot and 1000 high whose slope rounds to no step: the sweep finds no inside anywhere |
| `Raster.Rasterizer.RemoveExpired` | include/nanosvgrast.h:1149-1161 | removes and advances; freed records join the freelist, none is lost |
| `Raster.Rasterizer.TakeNode` | include/nanosvgrast.h:870-882 | the record comes from the freelist, or is new from the pool and overlaps no live record |
| `Raster.Rasterizer.AddActive` | include/nanosvgrast.h:870-898 | the new active edge has the edge's x at the sub-scanline, its step, its lower end and its direction |
| `Raster.Rasterizer.InsertStarting` | include/nanosvgrast.h:1182-1204 | afterwards the list is sorted and holds exactly the crossing edges, each once |
| `Raster.Rasterizer.Step` | include/nanosvgrast.h:1144-1204 | the sweep invariant goes from one sub-scanline to the next |
| `Raster.NodesApart` | include/nanosvgrast.h:870-904 | no record is twice in the list, or both active and free, and active plus free are all the records given out |
| `Raster.Rasterizer.CoverRow` | include/nanosvgrast.h:1140-1209 | the coverage row of five sub-scanlines is the sum of the spans' cover, with no byte wrapping |
| `Raster.RowFilled` | include/nanosvgrast.h:1144-1209 | one more sub-scanline keeps that meaning; five weights of 51 still fit a byte |
| `Raster.Rasterizer.BlitRow` | include/nanosvgrast.h:1210-1215 | blending only the reached columns leaves the whole row blended |
| `Raster.Rasterizer.RasterizeSortedEdges` | include/nanosvgrast.h:1132-1218 | the list satisfies the sweep invariant on every sub-scanline, every pixel ends as its old value blended under the coverage the sweep gives it, and other bytes stay |
| `Blend.Div255Exact` | include/nanosvgrast.h:997-1000 | the multiply-and-shift is floor(x/255) on every product of two bytes |
| `Blend.BlendPixel` | include/nanosvgrast.h:1012-1038 | a premultiplied destination stays premultiplied and every sum fits a byte, for any coverage and colour |
| `Blend.CoveredAlpha` | include/nanosvgrast.h:1016-1016 | coverage scales the colour's alpha: 255 times the result is at most their product and short of it by less than 255 |
| `Blend.BlendIsMean` | include/nanosvgrast.h:1012-1038 | 255 times each blended channel is at most the mean of paint and pixel weighted by that alpha, and short of it by less than 510; 255 times the new alpha by less than 255 |
| `Blend.BlendExtremes` | include/nanosvgrast.h:1012-1038 | no coverage leaves the pixel alone, full coverage by an opaque colour replaces it |
| `Blend.AlphaGrows` | include/nanosvgrast.h:1012-1038 | painting never lowers alpha, neither below the old one nor below the paint's |
| `Blend.UnpremultiplyInRange` | include/nanosvgrast.h:1228-1233 | the division by a non-zero alpha is 255 times the channel over it rounded down, and stays in a byte if and only if the channel does not exceed it |
| `Blend.UnpremultiplyUndoes` | include/nanosvgrast.h:1228-1233 | premultiplying again loses a bounded amount and never gains |
| `Scanline.BlendAt` | include/nanosvgrast.h:1012-1038 | one pixel in the byte buffer, casts included |
| `Scanline.ScanlineSolid` | include/nanosvgrast.h:1002-1040 | count pixels from a column on; bytes elsewhere unchanged |
| `Scanline.BlendedWholeRow` | include/nanosvgrast.h:1210-1215 | blitting only the reached columns is blending the whole row |
| `Render.FilledCoverage` | include/nanosvgrast.h:1430-1454 | end to end for a shape's paths: the coverage a pixel is blended with is at most 255 and 51/1024 of the measure of the inside of the shape's own loops, short by under one unit for each span met and off by 51/1024 for each position across which rounding carried an edge; those are at most the crossing edges' own errors and one for each |
| `Render.RowSums` | include/nanosvgrast.h:1140-1209 | the spans met and the bound on carried positions in a row are the sums over its five sub-scanlines |
| `Render.PixelExtremes` | include/nanosvgrast.h:1430-1454 | a pixel wholly inside the shape's loops on its five sub-scanlines, with no edge carried across it and one span on each, is replaced by an opaque paint; one wholly outside stays as it is |
| `Render.PlaceAll` | include/nanosvgrast.h:1437-1444 | edges scaled and translated in place |
| `Render.PrepareEdges` | include/nanosvgrast.h:1433-1448 | the edges of the shape's loops, placed, in order of y0 |
| `Render.FillShape` | include/nanosvgrast.h:1430-1454 | one shape painted over the image, which stays premultiplied |
| `Render.PaintedImageOk` | include/nanosvgrast.h:1426-1454 | painted images stay premultiplied |
| `Render.UnpremultiplyAt` | include/nanosvgrast.h:1228-1233 | one pixel in place |
| `Render.UnpremultiplyRows` | include/nanosvgrast.h:1224-1236 | every pixel of every row unpremultiplied once, padding bytes untouched, no channel leaving a byte |
| `Defringe.PlacesAre` | include/nanosvgrast.h:1244-1266 | the places looked at are the adjacent pixels of the image, each once, but for column 0 to its right and row 0 below it |
| `Defringe.NeighboursAt` | include/nanosvgrast.h:1244-1266 | the neighbours are the pixels at those places |
| `Defringe.SumsAlike` | include/nanosvgrast.h:1238-1278 | the colours of transparent pixels are never read |
| `Defringe.OrderFree` | include/nanosvgrast.h:1238-1278 | visiting any pixels in any order, however often, leaves each visited pixel as the image before the pass says and the others as they were |
| `Defringe.AnyOrderIsRowOrder` | include/nanosvgrast.h:1238-1278 | so a pixel visited in any order ends as after the pass in row order |
| `Defringe.FringeIsBetween` | include/nanosvgrast.h:1267-1271 | each channel a transparent pixel takes lies between the smallest and the largest among its painted neighbours |
| `Defringe.SumNeighbours` | include/nanosvgrast.h:1244-1266 | number and sums of the painted neighbours, with the first column and row never used as left and above |
| `Defringe.DefringeAt` | include/nanosvgrast.h:1241-1274 | one pixel: only a transparent one with painted neighbours changes, to their average |
| `Defringe.DefringeAll` | include/nanosvgrast.h:1238-1278 | every pixel ends as the image before the pass says, and other bytes stay |
| `Render.UnpremultiplyAlpha` | include/nanosvgrast.h:1220-1279 | both passes in turn |
| `Render.FinalPixel` | include/nanosvgrast.h:1220-1279 | alpha stays; a pixel that is not transparent ends unpremultiplied, a transparent one as the defringe pass says |
| `Render.ClearImage` | include/nanosvgrast.h:1423-1424 | every row cleared |
| `Render.RasterizeFull` | include/nanosvgrast.h:1403-1493 | from the cleared image each visible filled shape is painted over the previous image, the last image is unpremultiplied, and the result is that after the defringe pass |
| `PagePool.Pool.NextPageOf` | include/nanosvgrast.h:196-217 | the next page of the chain, or a new one at its end |
| `PagePool.Pool.ResetPool` | include/nanosvgrast.h:219-227 | all pages empty, the first one current, none lost |
| `PagePool.Pool.Alloc` | include/nanosvgrast.h:229-239 | refused exactly above the page size; otherwise a block inside one page that no block since the last reset shares |
| `PagePool.AllocHolds` | include/nanosvgrast.h:229-239 | an allocation keeps all blocks disjoint and below the fill marks, and pages after the current one empty |
| `PagePool.RunHolds` | include/nanosvgrast.h:235-246 | any run of requests keeps all blocks apart and in their pages |
| `PagePool.RunSizes` | include/nanosvgrast.h:235-246 | each request of a run gets a block of its size |
| `PagePool.ResetReusesPages` | include/nanosvgrast.h:219-239 | after a reset every run of requests gets the addresses of a new pool, and pages are added only for what the old chain cannot hold |
| `Freesat.DecodeBinary` | lib/base/freesatv2.cpp:118-133 | a string of digits becomes the word with those bits on top |
| `Freesat.MaskOf` | lib/base/freesatv2.cpp:239-245 | the mask loop sets the top bits of a code's length |
| `Freesat.MaskedEqual` | lib/base/freesatv2.cpp:246-246 | the masked comparison holds exactly when the word's top bits are the code's |
| `Freesat.FirstWindow` | lib/base/freesatv2.cpp:213-217 | the first window holds the first 32 payload bits, zero-padded |
| `Freesat.ShiftWindow` | lib/base/freesatv2.cpp:263-276 | shifting by n bits moves the zero-padded window n bits on, at every bit position |
| `Freesat.FindEntry` | lib/base/freesatv2.cpp:236-259 | the first code of the context that matches the window, if any |
| `Freesat.ReadSymbol` | lib/base/freesatv2.cpp:221-260 | one round: an escaped byte, or the first matching code's symbol and length |
| `Freesat.Decode` | lib/base/freesatv2.cpp:196-288 | the decoder computes the reading of the payload as a bit sequence and ends within 8*(size-2)+1 rounds, for any table with codes of at least one bit and any payload |
| `FreesatEncoding.EncodesText` | lib/base/freesatv2.cpp:228-260 | a sequence of codes and raw bytes encodes one text and no other: a code stands for the character it leads to, but end of text and escape for nothing |
| `FreesatEncoding.RunDecodes` | lib/base/freesatv2.cpp:219-285 | with prefix-free codes, decoding an encoded text gives a prefix of it, and all of it if and only if no symbol boundary before the end is followed by 32 zero bits |
| `FreesatEncoding.DecodesText` | lib/base/freesatv2.cpp:196-288 | the same for whole payloads, from the START context |
| `FreesatEncoding.ZeroCodeCutShort` | lib/base/freesatv2.cpp:285-285 | a table whose all-zero code loses the end of a text |
| `Utf8.IsUTF8` | lib/base/estring.cpp:875-913 | the checker accepts exactly the strings that split into whole characters |
| `Utf8.SplitAtBoundary` | lib/base/estring.cpp:925-953 | a well-formed string splits into well-formed parts exactly at its boundaries |
| `Utf8.LeadBytes` | lib/base/estring.cpp:875-913 | bytes 00-7F, C0-DF, E0-EF and F0-F7 lead characters of one to four bytes, 80-BF continue one, and F8-FF do neither |
| `Utf8.TruncateUTF8` | lib/base/estring.cpp:925-953 | the result is a well-formed prefix, of at most newsize bytes when newsize >= 1, and is the longest such one if and only if newsize is not zero and the first character is not exactly newsize bytes long (or the string is shorter) |
| `Utf8.WholeCharGivenUp` | lib/base/estring.cpp:925-953 | the two-byte string of one character cut to size 2 becomes empty |
| `CodePoints.EncodedChar` | lib/base/estring.cpp:449-471 | a code point below 0x200000 becomes one character that decodes to it, whatever follows |
| `CodePoints.EncodeWellFormed` | lib/base/estring.cpp:449-471 | for every long, the checker accepts the output except for negatives whose low byte is not ASCII |
| `CodePoints.EncodeAllDecodes` | lib/base/estring.cpp:449-471 | concatenated encodings pass the checker and decode to the code points |
| `CodePoints.GEOSTD8ToUTF8` | lib/base/estring.cpp:520-565 | the output is the UTF-8 of each kept byte's code point, and the reported length is its length |
| `CodePoints.GeoOutputReads` | lib/base/estring.cpp:520-565 | so it always passes the checker and reads as those code points |
| `ReplaceAll.ReplaceAllUtf8` | lib/base/estring.cpp:1000-1017 | the loop, editing the string it walks through, ends with the walk's result, or reports that it would stand still forever |
| `ReplaceAll.NoMatchInside` | lib/base/estring.cpp:1000-1017 | no match of a well-formed entity starts inside a character of well-formed text |
| `ReplaceAll.WalkIsPlain` | lib/base/estring.cpp:1000-1017 | on well-formed text and a non-empty well-formed entity the walk ends, with what plain find and replace gives |
| `ReplaceExact.WalkEndsIff` | lib/base/estring.cpp:1000-1017 | for any text and non-empty well-formed entity, the loop ends if and only if stepping by lead bytes never lands on a byte that leads nothing |
| `ReplaceExact.WalkIsPlainIff` | lib/base/estring.cpp:1000-1017 | it gives the plain result for every replacement if and only if, besides, the stepping comes to every place where the entity stands |
| `ReplaceExact.WalkIsPlainOnly` | lib/base/estring.cpp:1000-1017 | already one replacement that starts with another byte than the entity shows a place missed |
| `ReplaceAll.IllFormedText` | lib/base/estring.cpp:1007-1015 | a stray continuation byte holds the loop forever; a lead byte without its followers hides a match |
| `ReplaceAll.FindFrom` | lib/base/estring.cpp:1050-1050 | the first match not before a position, or none |
| `ReplaceAll.ReplaceAllPlain` | lib/base/estring.cpp:1049-1055 | find, replace, go on after the replacement: the plain result |
| `SingleByte.ConvertUTF8DVB` | lib/base/estring.cpp:799-859 | the conversion loop computes the reading of its input one lead byte at a time |
| `SingleByte.SearchTable` | lib/base/estring.cpp:846-853 | the code's first place in the table, or the code itself |
| `SingleByte.RoundTrip` | lib/base/estring.cpp:799-859 | for codes below 0x800, converting there and back returns the string if and only if every byte is stable |
| `SingleByte.LongCodeLost` | lib/base/estring.cpp:799-859 | a byte whose code takes three or four bytes never comes back alone |
| `SingleByte.RoundTripForTable` | lib/base/estring.cpp:422-471 | all strings over a set of bytes make the round trip if and only if every byte of the set is stable |
| `SingleByte.StableByTable` | lib/base/estring.cpp:422-447 | stability read off the table: code not 0, low bytes not shadowed by a table entry, table code in two-byte range and listed first |
| `PopCount.FourAddsCounts` | lib/base/big5.h:4174-4178 | the four masked additions count the set bits of a 16-bit word |
| `PopCount.CountMasked` | lib/base/big5.h:4172-4173 | masking below i leaves the set bits below i |
| `Big5.RankCounts` | lib/base/big5.h:4168-4179 | the computed index is the block's base plus the set bits below the code point |
| `Big5.RankIncreasing` | lib/base/big5.h:4145-4187 | over blocks whose bases add up, the index strictly increases with the code point and stays below the total |
| `Big5.RankOnto` | lib/base/big5.h:4145-4187 | every index below the total is reached: with the above, an order-preserving bijection |
| `Big5.IndexInjective` | lib/base/big5.h:1907-1907 | different byte pairs have different table indexes |
| `Big5.WcToMb` | lib/base/big5.h:4145-4187 | all four outcomes of the encoder, with the index it computes step by step |
| `Big5.SlotIff` | lib/base/big5.h:4151-4166 | a code point has a block if and only if it is on one of the eight pages, and it is the block that starts at most 15 before it |
| `Big5.IndexIsPlace` | lib/base/big5.h:1907-1915 | the table index of a pair is its place in byte order from A1 40 on, the unused lead byte C8 counted, and from C9 40 on for the second page |
| `Big5.DecodingIsChart` | lib/base/big5.h:1899-1926 | with pages that list a chart's code points in byte order, any two bytes decode to the chart's code point when they are a pair of the chart, and are illegal otherwise |
| `Big5.LoneByte` | lib/base/big5.h:1899-1926 | with one byte left, a lead byte asks for more and any other byte is illegal |
| `Big5.FirstIdeograph` | lib/base/big5.h:1899-1926 | the hypotheses can be met: for the chart of A4 40 alone the tables exist, with entry 471 of the first page its code point 4E00, and it decodes |
| `Big5.RankIsPlace` | lib/base/big5.h:4168-4179 | the rank index of the i-th accepted code point is i |
| `Big5.TotalIsCount` | lib/base/big5.h:4145-4187 | the bases and counts of the blocks add up to the number of accepted code points |
| `Big5.EncodingRoundTrip` | lib/base/big5.h:4145-4187 | with tables generated from one chart (a bit for each code point, pairs listed in code point order), encoding succeeds exactly on the chart's code points, and decoding the two bytes gives the code point back |
| `Big5.DecodingRoundTrip` | lib/base/big5.h:1899-1926 | when no two pairs share a code point, encoding what a pair decodes to gives the pair back |
| `Timespecs.ComparesInstants` | lib/base/ebase.h:30-38 | on normal operands the comparisons compare instants |
| `Timespecs.AddMsecMoves` | lib/base/ebase.h:86-95 | `+=` moves the instant by exactly msek milliseconds for any sign, and leaves the nanosecond range exactly when it would have to borrow |
| `Timespecs.SubMsecMoves` | lib/base/ebase.h:121-130 | `-=` moves it back, and leaves the range exactly when it would have to carry |
| `Timespecs.SubThenAdd` | lib/base/ebase.cpp:97-104 | taking the interval off and on again restores the timespec |
| `Timespecs.TimeoutRoundsDown` | lib/base/ebase.h:132-140 | the microsecond wait is the floor of the difference, negative exactly for past instants, cut off at 2000 s for 2001 s or more |
| `Timespecs.RangeLeft` | lib/base/ebase.h:86-130 | negative steps that leave tv_nsec out of range, downwards and upwards |
| `TimerQueue.InsertAtSplit` | lib/base/eptrlist.h:157-162 | insertion at any point that separates earlier deadlines from the others is insertion in order |
| `TimerQueue.InsertKeeps` | lib/base/eptrlist.h:157-162 | the list stays sorted and gains one entry |
| `TimerQueue.PassEnds` | lib/base/ebase.cpp:194-203 | after a pass no timer is due and the list is sorted |
| `TimerQueue.PassInOrder` | lib/base/ebase.cpp:194-203 | deadlines of successive firings never decrease, and none is in the future |
| `TimerQueue.EachTimerFires` | lib/base/ebase.cpp:109-122 | in one pass a due repeating timer fires exactly floor((now-deadline)/interval)+1 times, a due single shot once, others not at all; firing j is j intervals after the deadline; the timer is left at its next deadline, or gone |
| `TimerQueue.AbsentNeverFires` | lib/base/ebase.cpp:194-203 | a timer not in the list neither fires nor appears |
| `TimerQueue.PassCounts` | lib/base/ebase.cpp:194-203 | the number of firings in a pass is the sum of the timers' counts |
| `TimerQueue.HangsInRange` | lib/base/ebase.cpp:194-203 | a timer whose tv_nsec is not out of range upwards hangs exactly when it is due, repeating and of interval <= 0 |
| `TimerQueue.HangsStays` | lib/base/ebase.cpp:111-117 | a timer that hangs still does after firing |
| `TimerQueue.LaterIsLater` | lib/base/ebase.cpp:113-117 | a due repeating timer that does not hang re-enters the list later than it was, tv_nsec in range or not |
| `TimerQueue.NeverEnds` | lib/base/ebase.cpp:194-203 | with a timer that hangs in the list the first timer is still due after any number of firings |
| `TimerQueue.ZeroIntervalHangs` | lib/base/ebase.cpp:194-203 | a concrete timer that keeps the loop busy forever |
| `TimerQueue.PassEndsIff` | lib/base/ebase.cpp:194-203 | for any sorted list, in range or not, the pass ends if and only if no timer in it hangs |
| `TimerQueue.WaitMeetsDeadline` | lib/base/ebase.cpp:204-209 | the poll wait never passes any timer's deadline, and within 2001 s it ends less than a millisecond before the earliest |
| `Timers.MainLoop.LowerBound` | lib/base/eptrlist.h:161-161 | the binary search's split point |
| `Timers.MainLoop.AddTimer` | lib/base/ebase.cpp:304-307 | insertion in order; each active timer is in the list exactly once |
| `Timers.MainLoop.RemoveTimer` | lib/base/eptrlist.h:410-425 | the first occurrence is removed |
| `Timers.MainLoop.Dispatch` | lib/base/ebase.cpp:193-203 | the dispatch loop fires what the pass over the old list fires and leaves its rest |
| `Timers.MainLoop.ProcessTimers` | lib/base/ebase.cpp:183-217 | the same, and the timeout and reason handed on to poll in every case of list and user timeout |
| `Timers.MainLoop.Destroy` | lib/base/ebase.cpp:132-139 | destruction stops every timer |
| `Timers.Timer.Start` | lib/base/ebase.cpp:48-64 | whatever its state the timer is in the list once, at now plus the delay with negatives as 0, keeping the interval as given; without a loop it is only stopped |
| `Timers.Timer.StartLongTimer` | lib/base/ebase.cpp:66-82 | a single shot after max(0, seconds) |
| `Timers.Timer.Stop` | lib/base/ebase.cpp:84-91 | the timer leaves the list, the others stay as they are |
| `Timers.Timer.ChangeInterval` | lib/base/ebase.cpp:93-107 | an active timer's deadline moves by the change of interval; an idle one goes on from its stale deadline |
| `Timers.Timer.Activate` | lib/base/ebase.cpp:109-122 | one firing at the old deadline; a repeating timer re-enters the list one interval later, a single shot becomes idle |
| `Timers.ChangedIntervalIsFromStart` | lib/base/ebase.cpp:93-107 | started with k and changed to k2, a timer is due k2 after its start |
| `MessagePump.NextHolds` | lib/base/message.h:58-107 | every atomic step of every thread keeps: queue length = eventfd + pushed but not triggered + left to take + lost; pushes = delivered, in flight and queued in order; the lock has one holder |
| `MessagePump.NeverFatal` | lib/base/message.h:73-78 | in every run of any number of senders the receiver never finds the queue empty |
| `MessagePump.DeliveredInPushOrder` | lib/base/message.h:79-89 | messages are delivered once each, in push order |
| `MessagePump.MutualExclusion` | lib/base/message.h:72-81 | no two threads are in their critical sections, and no message is delivered inside one |
| `MessagePump.QuietIsDrained` | lib/base/message.h:60-70 | with no event on its way, messages are left in the queue exactly if events were lost; fewer than 2^32 queued means none was |
| `MessagePump.LostByBigRead` | lib/base/message.h:70-70 | events are lost exactly when a read finds 2^32 or more |
| `MessagePump.DrainedIffSmallReads` | lib/base/message.h:67-91 | with no event on its way, everything pushed was delivered if and only if every read found fewer than 2^32 events |
| `MessagePump.StepDrains` | lib/base/message.h:58-107 | every step but a new call lowers a bound, so the pump comes to rest when calls stop |
| `MessagePump.BlockedOnlyBy` | lib/base/message.h:58-107 | in any state a thread waits for nothing but the lock, and the receiver for an event |
| `MessagePump.SomeoneMoves` | lib/base/message.h:58-107 | no deadlock: unless all is at rest some thread in a call can move |
| `MessagePump.RestIsDelivered` | lib/base/message.h:58-107 | at rest all pushed messages have been delivered if and only if all reads were small |
| `MessagePump.Stranded` | lib/base/message.h:67-70 | the run of 2^32 sends before a read, which leaves every message behind with no event |
| `MessagePump.FixedMessagePump.Push` | lib/base/message.h:102-105 | the locked part of send |
| `MessagePump.FixedMessagePump.TriggerEvent` | lib/base/message.h:92-97 | one event more |
| `MessagePump.FixedMessagePump.Send` | lib/base/message.h:100-107 | one message and one event |
| `MessagePump.FixedMessagePump.DoRecv` | lib/base/message.h:58-91 | one call delivers exactly the oldest (events mod 2^32) messages in order, while other threads push in between, and never fails |
| `IoBuffer.IOBuffer.Write` | lib/base/buffer.cpp:101-116 | appends to the byte queue, however it is cut into blocks |
| `IoBuffer.IOBuffer.Peek` | lib/base/buffer.cpp:51-75 | the first min(len, size) bytes, across blocks |
| `IoBuffer.IOBuffer.Skip` | lib/base/buffer.cpp:77-91 | drops the first bytes, and used-up blocks |
| `IoBuffer.IOBuffer.Read` | lib/base/buffer.cpp:93-99 | removes and returns the first min(len, size) bytes |
| `IoBuffer.IOBuffer.Size` | lib/base/buffer.cpp:37-44 | the length of the queue |
| `IoBuffer.IOBuffer.Empty` | lib/base/buffer.cpp:46-49 | no blocks exactly when no bytes |
| `IoBuffer.IOBuffer.SearchChr` | lib/base/buffer.cpp:177-197 | the first position of the char across blocks, or -1; passed as a signed char a byte is found exactly when it is there and is ASCII, passed as an unsigned one exactly when it is there |
| `IoBuffer.FindsOnlyAscii` | lib/base/buffer.cpp:188-188 | the same about the comparison, for a signed char |
| `IoBuffer.SignedCharIs` | lib/base/buffer.cpp:188-188 | a signed char is the byte or 256 below it, and below 128 |
| `IoBuffer.HighByteMissed` | lib/base/buffer.cpp:188-188 | 0xE9 as a signed char is another number, so the comparison misses it in a buffer that holds it |
| `IoBuffer.IOBuffer.Clear` | lib/base/buffer.cpp:31-35 | empties the queue |
| `IoBuffer.IOBuffer.RemoveBlock` | lib/base/buffer.cpp:8-15 | drops the first block and the read position |
| `IoBuffer.IOBuffer.AddBlock` | lib/base/buffer.cpp:17-24 | an empty block at the end |
| `RawFile.File.Scan` | lib/base/rawfile.cpp:97-113 | counts the files, up to 1000, and sums their sizes |
| `RawFile.File.Open` | lib/base/rawfile.cpp:28-38 | a first open succeeds when the file exists and establishes the descriptor invariant |
| `RawFile.File.LseekInternal` | lib/base/rawfile.cpp:40-50 | moves the descriptor only for a single file |
| `RawFile.File.SwitchOffset` | lib/base/rawfile.cpp:115-141 | opens the file the offset falls in and keeps descriptor position = last offset - base offset |
| `RawFile.File.Read` | lib/base/rawfile.cpp:64-90 | after any earlier reads: the bytes are a prefix of the rest of the file the offset falls in; in a regular recording whose first file has data they are the concatenation's, ret is 0 exactly at the end or for count 0, and when the system gives all it can ret is count or the rest of the file, whichever is less |
| `RawFile.File.Length` | lib/base/rawfile.cpp:155-168 | the length of the concatenation |
| `RawFile.File.Offset` | lib/base/rawfile.cpp:170-173 | the offset in the recording at which the descriptor stands |
| `RawFile.RestIsWhole` | lib/base/rawfile.cpp:115-141 | in a regular recording the rest of the file is the next part of the concatenation, empty only at its end |
| `RawFile.RestReaches` | lib/base/rawfile.cpp:115-141 | one read can reach to the next multiple of the first file's size, and in the last file to the end of the recording |
| `RawFile.ReadableIff` | lib/base/rawfile.cpp:115-141 | a recording with the regular layout can be read through if and only if its first file has data or no file has |
| `RawFile.HiddenRecording` | lib/base/rawfile.cpp:117-131 | an empty first file hides the data of the second |
| `CachedSource.Cached.Read` | lib/base/cachedtssource.cpp:21-40 | through hits, refills, failures and short reads the bytes are the source's; a hit asks nothing and gives all; fewer bytes than asked only if the refill was short or the content ends |
| `CachedSource.AnswersAgree` | lib/base/cachedtssource.cpp:21-40 | answers for one offset never disagree, from cache or source |
| `Crc32.TableStep` | lib/dvb/crc32.h:16-18 | one table look-up does the work of eight shifts of the register |
| `Crc32.Crc` | lib/dvb/crc32.h:12-20 | the table loop computes the bit-serial register, for any polynomial and its table |
| `CrcDivision.SerialIsRemainder` | lib/dvb/crc32.h:12-20 | the register after a message is the remainder of dividing, over GF(2), the message's bits times x^32, the start value added to the first 32 of them, by x^32 and the polynomial |
| `CrcDivision.FeedIsBits` | lib/dvb/crc32.h:16-18 | feeding a byte feeds its bits one by one, the highest first |
| `Crc32.SerialConcat` | lib/dvb/crc32.h:12-20 | continuing from a result is running over the concatenation |
| `Crc32.SerialLinear` | lib/dvb/crc32.h:12-20 | linear over xor of states and equal-length inputs |
| `Crc32.OwnCrcGivesZero` | lib/dvb/crc32.h:12-20 | data followed by its own big-endian CRC gives 0, for any start value and polynomial |

## Left out

- Floating-point rounding: `double` is modelled as `real`, and the 22.10 fixed-point positions as unbounded integers.
- The tag `src` of an active edge and the memory blocks of its records are the model's own: they say which edge and which bytes a record stands for, where the source has pointers.
- Linked lists (active edges, freelist, pages, paths, timers, buffer blocks, table entries) are sequences; pointer surgery and aliasing are not captured.
- The one C structure NSVGrasterizer is two classes, `Shapes.Flattener` and `Raster.Rasterizer`; the bitmap is required to hold height * stride bytes.
- Paint: the colour of each pixel is a parameter, so nsvg__initPaint, gradients and opacity are not modelled; the other branches of nsvg__scanlineSolid differ only in that colour.
- Render.PrepareEdges: qsort is the C library's, represented by one sort; nothing in the proofs depends on the order of edges with equal y0.
- Render.RasterizeFull: strokes are not drawn (stroke expansion, dashes, caps and joins), the BGR variant of the last passes is not modelled, and there are no fill-rule values other than the two.
- Paths.PathParser.AddPath: does not model the bounds of the curve that the source computes along with the path.
- malloc and realloc failure.
- Crc32.Crc: the 256-entry table is a function built from a polynomial; the numbers of the shipped table are not part of this model.
- Freesat.Decode: the tables are parameters; reading them from files is not modelled. The symbols of table entries are required to be ASCII, because a platform's char may be signed and it indexes the table, and codes to have at least one bit (1 to 32 for the round trip).
- Utf8.IsUTF8: the checker's notion of a character is laxer than section 3 of RFC 3629: surrogates, overlong forms and code points up to 0x1FFFFF pass, in the source and in the model.
- SingleByte.RoundTrip: convertDVBUTF8 is represented by its single-byte recoding loop; control codes, two-character mappings, UTF-16, GB18030, Big5 and Huffman selection are not modelled, nor are tables 0 and 1 of convertUTF8DVB.
- ReplaceAll.ReplaceAllUtf8: the GBK/Big5 and UTF-16 branches of replace_all are not modelled.
- Big5.EncodingRoundTrip: the contents of the tables are abstract; the lemma is about tables generated from one chart, with block bases that add up.
- Timers.MainLoop.ProcessTimers: callbacks are passive, so they do not touch timers; it requires that no timer hangs, which is exactly when the source's loop ends. Exact firing counts are stated for deadlines in range. The clock is a parameter. Socket notifiers and poll itself are not modelled.
- Timers.Timer.ChangeInterval: the lifetime of the loop object is not modelled; the source does not check here whether the loop still exists.
- timespec `+ long` (`lib/base/ebase.h:97-107`) carries wrongly; the timers do not use it.
- MessagePump.FixedMessagePump.DoRecv: other threads act between its critical sections as given by a parameter; arbitrary interleavings are the state machine's subject. The eventfd's own limit of 2^64 and failing reads and writes are not modelled.
- IoBuffer.IOBuffer.constructor: requires a positive allocation size, without which writing does not end. fromfile and tofile are not modelled.
- IoBuffer.IOBuffer.Skip: requires that many bytes, as the source asserts.
- RawFile.File.Read: offsets are not negative; files do not change while open. Opening again after a file switch, file numbers beyond int, and locking are not modelled.
- CachedSource.Cached.Read: the source is unchanging and does not write to the buffer when it fails.
- Sockets, devices, Python, widgets, XML and URL parsing: foreign calls or plumbing.
