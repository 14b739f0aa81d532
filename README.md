# taival core, modelled in Dafny

taival compares public transport data in OpenStreetMap with the Helsinki
region transit authority's data (HSL, through the Digitransit API). This
project models the computational core that the comparison rests on:

- `route_shape.dfy` assembles a route relation's ways into one node list.
  Each way is flipped where needed and roundabouts are cut at the right
  nodes. A flag is set when the ways do not share end nodes (`osm.route_shape`).
- `paths.dfy` defines what it means for a node list to walk along the
  route's ways and proves that each assembly step keeps that property;
  `shape_walk.dfy` draws the conclusion for the whole assembly.
- `route_gpx.dfy` is the older node assembly of `route2gpx.rel2nodes`,
  including the defect in its local distance function.
- `match_shapes.dfy` pairs the route shapes of two data sources by the
  distance between their end points (`taival.match_shapes`).
- `overlap.dfy` densifies a shape by linear interpolation and measures how
  much of one shape lies near another (`util.interp_shape`,
  `util.test_shape_overlap`).
- `intervals.dfy` splits the service intervals at a stop into normal, peak
  and night intervals (`util.arrivals2intervals`).
- `dict_merge.dfy` merges dictionaries of lists, with and without
  de-duplication by a unique key (`util.ddl_merge`,
  `util.ddl_uniq_key_merge`). The dictionary being updated is a class whose
  `entries` field the methods change.
- `line_sort.dfy` models the sort key for line names (`util.linesortkey`).
- `osm_tags.dfy` covers three things:
  - the OSM stop and station tag tables;
  - recognising transport modes from tags (`osm.stoptags2mode`);
  - the Overpass tag filters for a mode (`osm.mode2ovptags`), and the OSM
    object links.
- `digitransit.dfy` normalizes hour windows that run past midnight and
  builds Reittiopas links.
- `hsl.py`'s tables are modelled in `hsl.dfy`: the member cities, bus code
  prefixes and municipality numbers. The same file models the Overpass area
  query for a list of cities, the splitting of an HSL long name into stop
  names, and stop names with platform codes.
- `geo.dfy` holds the latlon and node types and the squared planar distance
  metrics (`util.ldist2`, `osm.ndist2`).
- `base.dfy` holds shared results, sequence and string helpers.

Python exceptions become `Err` values of a `Result` type: IndexError,
KeyError, TypeError, ValueError and ZeroDivisionError. Where the source
mutates a list while walking it, the model is a method with a loop. That
method is proved equal to a function on values, and the properties are
proved about that function.

## Model

| member | source | states |
|---|---|---|
| Geo.LDist2 | util.py:66-69 | the squared planar distance is non-negative and zero from a point to itself |
| Geo.LDist2Symmetric | util.py:66-69 | the distance metric is symmetric |
| OsmData.NDist2 | osm.py:120-122 | the squared node distance is non-negative and zero for nodes at the same position |
| RouteShape.ShapeWays | osm.py:237-238 | the ways used are the members whose role is empty, forward or backward; there are none exactly when no member qualifies |
| RouteShape.ShapeWaysNonEmpty | osm.py:237-238 | every selected way has nodes |
| RouteShape.FirstWithRole | osm.py:245-256 | the position of the first member with the given role, or none exactly when no member has that role |
| RouteShape.Anchor | osm.py:245-256 | a single-way route is oriented by its first stop, and by its first platform only when it has no stop |
| RouteShape.OrientFirst | osm.py:260-287 | the first way is kept or reversed; it is kept when its last node is an end of the second way; with no gap its last node lies on the second way; across a gap its last node is the end that is not farther from the second way |
| RouteShape.OrientFirstCases | osm.py:261-287 | the whole cascade: kept when its last node is an end of the second way, else reversed when its first node is; on a ring second way, kept when its last node is on the ring, else reversed when its first node is; across a gap, kept exactly when its last node is strictly nearer to the second way's ends, reversed on a tie |
| RouteShape.Arc | osm.py:310-330 | the nodes of a ring walked from just after one index up to another, wrapping past the ring's end; it ends at the target node and has the wrapped length |
| RouteShape.ExitIndex | osm.py:297-306 | the index where a roundabout is left: a node of the ring that is an end of the next way; none exactly when there is no next way or neither of its ends is on the ring |
| RouteShape.RingStep | osm.py:293-330 | splicing a roundabout keeps the nodes so far as a prefix, and a gap is never cleared |
| RouteShape.RingStepJoins | osm.py:293-330 | a roundabout entered at the current last node and left towards the next way adds no gap, and the added nodes end at the exit node |
| RouteShape.Step | osm.py:293-341 | adding a way keeps the nodes so far as a prefix, and a gap is never cleared |
| RouteShape.StepJoins | osm.py:331-341 | a way that starts or ends at the current last node is appended (reversed when needed) without that node twice and without a gap; any other way sets the gap flag |
| RouteShape.Lookahead | osm.py:297 | the way after position `i`, if there is one, has nodes |
| RouteShape.Chain | osm.py:259-341 | the assembled node list of the first `k` ways is non-empty |
| RouteShape.AssembleWays | osm.py:259-341 | the loop over the ways computes exactly the assembly of all of them |
| RouteShape.ExtendWithWay | osm.py:331-341 | extending the list in place with one plain way computes exactly one assembly step |
| RouteShape.SpliceRing | osm.py:293-330 | extending the list in place with a roundabout computes exactly one roundabout step |
| RouteShape.RouteShape | osm.py:233-343 | no ways give `([], False)`; one way gives its positions, reversed exactly when the anchor is nearer to its last node, with no gap; two or more give the positions and gap flag of the assembly |
| RouteShape.ChainedLength | osm.py:291-341 | with no roundabout and no gap, the node list is as long as all ways together, less one shared node per joint |
| RouteShape.StepLength | osm.py:331-334 | a plain way joined without a gap adds all of its nodes but one |
| Paths.WayWalks | osm.py:261-266 | a way and its reverse walk along that way |
| Paths.ArcWalks | osm.py:310-327 | the nodes added for a roundabout walk along the ring |
| Paths.ArcWrapWalks | osm.py:313-327 | the part of a roundabout that wraps past the ring's end walks along the ring |
| Paths.StepWalks | osm.py:293-341 | without a gap, the nodes a step adds walk along the added way from the previous last node on |
| Paths.FirstWalks | osm.py:260-287 | the oriented first way walks along the ways |
| Paths.ChainFirstWalks | osm.py:259-287 | the assembly of the first way alone walks along the ways |
| Paths.WalksEvery | osm.py:234-236 | a node list walks along the ways exactly when every pair of consecutive nodes are neighbours on some way, or the same node (a ring's closing node) |
| Paths.WalksExtend | osm.py:291-341 | a list that walks along the ways, extended by nodes that walk along one way from its last node on, still walks along the ways |
| Paths.WalksAlongConcat | osm.py:331-341 | two walks along a way whose meeting nodes are neighbours on it join into one walk |
| ShapeWalk.ChainWalks | osm.py:234-236 | when no gap is reported, consecutive nodes of the assembled list are always neighbours on one of the route's ways, or the same node (a ring's closing node) |
| Paths.ChainStepWalks | osm.py:291-341 | each gap-free step keeps the walk property of the assembled list |
| Paths.StepKeepsWalk | osm.py:291-341 | a gap-free step from a list that walks along the ways gives one that does too |
| RouteShape.ChainUnfold | osm.py:291-341 | the assembly of `k` ways is one step after the assembly of `k - 1`, and a gap stays set |
| RouteShape.ChainGapKept | osm.py:291-341 | a gap found among the first ways stays reported once more ways are added |
| RouteGpx.GpxWays | route2gpx.py:55-56 | the ways used are exactly the members whose role is absent |
| RouteGpx.GpxWaysNonEmpty | route2gpx.py:55-56 | every selected way has nodes |
| RouteGpx.GpxDist2 | route2gpx.py:51-53 | the local distance as written is non-negative |
| RouteGpx.GpxDist2IgnoresLongitude | route2gpx.py:53 | the local distance depends on latitudes only and is zero for nodes at equal latitude |
| RouteGpx.GpxOrientFirst | route2gpx.py:58-63 | the first way is kept or reversed: kept when its last node is an end of the second way, reversed when only its first node is |
| RouteGpx.GpxOrientFirstGap | route2gpx.py:64-73 | when neither end of the first way touches the second, it is kept exactly when the nearer of its last node's distances to the second way's ends is strictly below the nearer of its first node's, and reversed otherwise, a tie included |
| RouteGpx.GpxStep | route2gpx.py:76-86 | adding a way keeps the list as a prefix; a way starting at the last node is appended from its second node, one ending there reversed; any other is appended whole starting at its end nearer by the metric, and reversed when its first node is not strictly nearer |
| RouteGpx.GpxChain | route2gpx.py:58-87 | the assembled list is non-empty |
| RouteGpx.Rel2Nodes | route2gpx.py:48-87 | fewer than two ways raise IndexError, and exactly then; otherwise the result is the assembly of all ways |
| RouteGpx.OrientGpx | route2gpx.py:58-73 | the branch cascade computes the orientation function |
| RouteGpx.ExtendGpx | route2gpx.py:77-86 | the in-place extension computes one step |
| RouteGpx.GpxChainLength | route2gpx.py:76-87 | the list holds between the total length of the ways less one per joint and that total |
| RouteGpx.AgreesWithRouteShape | route2gpx.py:58-87 | on routes without roundabouts or gaps, rel2nodes gives the same nodes as route_shape |
| RouteGpx.ChainFirstAgrees | route2gpx.py:58-73 | without a gap, rel2nodes and route_shape give the same list for the first way |
| RouteGpx.ChainAgrees | route2gpx.py:76-87 | without a gap, one more non-ring way keeps the two lists equal |
| RouteGpx.FirstAgrees | route2gpx.py:58-73 | when the first way meets a second way that is not a ring end to end, rel2nodes orients it as route_shape does |
| RouteGpx.StepAgrees | route2gpx.py:77-86 | a gap-free step of rel2nodes equals the step of route_shape |
| RouteGpx.FartherEndAsWritten | route2gpx.py:53 | with the local distance as written, a way across a gap can be appended from its farther end |
| RouteGpx.NearerEndCorrected | route2gpx.py:83-86 | with the true node distance, a way across a gap is appended starting at its end nearer to the last node |
| ShapeMatch.EndsDist | taival.py:165-169 | the sum of squared distances of the first points and of the last points is non-negative, and zero for shapes with the same ends |
| ShapeMatch.Scan | taival.py:163-172 | the inner loop's state after `n` candidates: the smallest distance below `1.0e10` and its first index, or index 0 when none is below |
| ShapeMatch.NearestIsArgMin | taival.py:163-173 | the chosen candidate is nearest, the first of equally near ones, and 0 when every candidate is at least `1.0e10` away |
| ShapeMatch.Filled | taival.py:159-162 | the loop fills the positions up to and including the first empty shape |
| ShapeMatch.FilledIs | taival.py:159-162 | the filled length is determined by the position of the first empty shape |
| ShapeMatch.FilledAll | taival.py:159-162 | every position is filled exactly when no shape before the last one is empty |
| ShapeMatch.Forward | taival.py:159-173 | the forward map has one valid target index per filled position |
| ShapeMatch.Inverse | taival.py:174-175 | each target records the last position mapping to it, and a target nobody maps to stays None |
| ShapeMatch.MatchShapes | taival.py:146-181 | the method computes the matching, swapped back into the caller's order |
| ShapeMatch.MapForward | taival.py:157-173 | an empty candidate shape raises IndexError exactly when the first shape is non-empty; otherwise each position holds the nearest candidate up to the first empty shape, and None after it |
| ShapeMatch.FindNearest | taival.py:163-173 | the inner loop finds the nearest candidate, and fails exactly when a candidate shape is empty |
| ShapeMatch.Invert | taival.py:174-175 | the inverting loop raises TypeError exactly when the forward map has a None entry; otherwise it computes the inverse map |
| ShapeMatch.SomesInverse | taival.py:174-175 | the second map is the inverse of the first: `m1to2[m2to1[j]] == j`, and unmapped targets are not values |
| ShapeMatch.MatchingInverse | taival.py:146-181 | the maps have the lengths of the caller's lists, and the shorter list's map has the longer list's map as its inverse, in either argument order |
| ShapeMatch.InjectiveRoundTrip | taival.py:174-175 | when no two shapes map to the same target, `m2to1[m1to2[i]] == i` |
| ShapeMatch.MatchingErrors | taival.py:157-175 | IndexError and TypeError occur exactly under the stated conditions on empty shapes, and there are no other errors |
| Overlap.ISqrt | util.py:84 | the integer square root lies between consecutive squares |
| Overlap.SegmentCount | util.py:84-85 | `int(d / ltol) + 1` pieces: at least one, and just enough that each piece is shorter than the tolerance |
| Overlap.Segment | util.py:80-89 | the points appended for one segment end at its end point; a single point exactly when the segment is shorter than the tolerance, else `n` points |
| Overlap.Densify | util.py:78-90 | the densified shape is at least as long as the original, with the same first and last points |
| Overlap.InterpShape | util.py:72-90 | the loop computes the densified shape; an empty shape raises IndexError, and a zero tolerance with two or more points divides by zero |
| Overlap.AppendSegment | util.py:80-89 | one iteration appends the segment's points, or divides by zero when the tolerance is zero |
| Overlap.DensifyGrows | util.py:79-89 | one more original point appends exactly one more segment |
| Overlap.DensifyPrefix | util.py:79-89 | densifying a prefix of the shape gives a prefix of the result |
| Overlap.DensifyAt | util.py:78-90 | each original point sits in the densified shape at the position its prefix reaches |
| Overlap.DensifyKeepsPoints | util.py:78-90 | every original point occurs in the result, in the original order, with the first and last points at the ends |
| Overlap.PosIncreasing | util.py:78-90 | the original points occur at strictly increasing positions |
| Overlap.DensifyInserts | util.py:81-89 | between two original points nothing is inserted exactly when they are closer than the tolerance; otherwise `SegmentCount - 1` points are inserted |
| Overlap.LerpStep | util.py:86-88 | consecutive interpolated points are closer than the tolerance |
| Overlap.LerpEnds | util.py:86-89 | interpolation step 0 is the segment's start and step `n` its end |
| Overlap.SegmentSteps | util.py:80-89 | every step within one densified segment is shorter than the tolerance |
| Overlap.StepsConcat | util.py:79-89 | closeness of consecutive points carries over to appended segments |
| Overlap.DensifySpacing | util.py:73-75 | consecutive points of the result are closer than the tolerance, as the docstring promises |
| Overlap.SearchOrderVisitsAll | util.py:103 | the scan order `startm..len(p)` then `0..startm` visits every index exactly once |
| Overlap.Overlaps | util.py:99-111 | one 0/1 entry per point of `s1`, 1 exactly when some densified point is within the threshold, wherever the scan starts |
| Overlap.TestShapeOverlap | util.py:94-115 | the method computes the overlap list or fraction, with the densification's errors and a division by zero for an empty `s1` |
| Overlap.FractionBounds | util.py:115 | a count over a length is a fraction in [0, 1] |
| Overlap.ScoreBounds | util.py:94-115 | the list form is a list of 0/1 flags, one per point; the fraction exists exactly when `s1` is non-empty and lies in [0, 1] |
| Overlap.SelfOverlap | util.py:94-115 | a non-empty shape overlaps itself completely |
| Overlap.ZeroTolerance | util.py:97-98 | a zero tolerance divides by zero on a shape of two or more points, and flags nothing on a one-point shape |
| Intervals.Classify | util.py:137-143 | an arrival is a peak arrival exactly when it is in a peak window, and a night arrival exactly when it is in a night window but no peak window |
| Intervals.Bucket | util.py:134-143 | a class's list has at most one interval per arrival pair |
| Intervals.AllIntervals | util.py:134-135 | one floor-divided interval in minutes per consecutive arrival pair |
| Intervals.Arrivals2Intervals | util.py:118-150 | the loop and the sorts compute the three sorted interval lists |
| Intervals.BucketsPartition | util.py:134-143 | the three lists together hold every interval exactly once |
| Intervals.IntervalsPartition | util.py:118-150 | the returned lists are sorted, partition the intervals, and number `len(arrivals) - 1` in total |
| Intervals.NoHoursEmpty | util.py:123-130 | with no peak hours the peak list is empty, and likewise for night hours |
| Intervals.BucketMembers | util.py:137-143 | each interval in a list follows an arrival of that list's class |
| DictMerge.Merge | util.py:4-10 | the dictionary becomes the merge of its old entries with the items |
| DictMerge.MergedLookup | util.py:4-10 | after the merge, each key's list is its old list followed by everything the items give that key, in order |
| DictMerge.MergedKeys | util.py:4-10 | a key is present after the merge exactly when it was present before or some item carries it |
| DictMerge.ItemsForUnique | util.py:6-10 | with distinct item keys, a key receives exactly its own item's elements |
| DictMerge.AppendNew | util.py:19-24 | appending keeps every record keyed |
| DictMerge.AppendUnseen | util.py:19-21 | the inner loop appends each record whose key value is not yet in the list |
| DictMerge.UniqKeyMerge | util.py:13-24 | the dictionary becomes the de-duplicating merge of its old entries with the items |
| DictMerge.AppendNewKeys | util.py:19-24 | the old list is kept as a prefix, only given records are added, and the key values afterwards are those of the old list and of the records |
| DictMerge.AppendNewUnique | util.py:13-16 | a list with distinct key values keeps distinct key values |
| DictMerge.UniqMergedUnique | util.py:13-24 | when every old list has distinct key values, so does every merged list |
| DictMerge.UniqMergedKeys | util.py:13-24 | a key is present after the merge exactly when it was before or some item gives it a non-empty value |
| DictMerge.UniqMergedPrefix | util.py:13-24 | every merged list starts with the key's old list |
| DictMerge.UniqMergedKeyValues | util.py:17-24 | after one item, a key value is in the list exactly when it was before or the item holds it |
| LineSort.DigitCount | util.py:29 | the digit count is at most the length, and zero exactly when there are no digits |
| LineSort.FewerDigitsFirst | util.py:27-29 | a name with fewer digits sorts first |
| LineSort.SameDigitsByName | util.py:27-29 | names with the same digit count sort as strings |
| LineSort.StrLessIrreflexive | util.py:29 | no string is less than itself |
| LineSort.StrLessTransitive | util.py:29 | string order is transitive |
| LineSort.StrLessTotal | util.py:29 | two different strings are ordered one way or the other |
| LineSort.KeyOrder | util.py:27-29 | the key order is a strict total order on distinct names |
| OsmTags.MatchedIndices | osm.py:413-425 | the indices of the modes whose tag sets match are valid table indices |
| OsmTags.Remove | osm.py:428 | `list.remove` drops one element |
| OsmTags.StopTags2Mode | osm.py:410-429 | the loop computes the modes whose tag sets match, without train when subway or monorail matches |
| OsmTags.MatchedIndicesSpec | osm.py:413-425 | the matched indices are increasing, and an index is matched exactly when one of its tag sets holds every tag |
| OsmTags.MatchedModesMember | osm.py:413-425 | a mode is listed exactly when one of its tag sets is a sub-mapping of the tags |
| OsmTags.StopModesSpec | osm.py:410-429 | a mode is in the result exactly when it matches, except that train is dropped exactly when subway or monorail also matches |
| OsmTags.MatchedModesDistinct | osm.py:413-425 | no mode is listed twice |
| OsmTags.RemoveSpec | osm.py:428 | removing keeps the other elements, and removes the only occurrence from a list without repeats |
| OsmTags.TrainSubsumes | osm.py:35-55 | tags matching light rail, subway or monorail always match train too |
| OsmTags.StopTagsDistinct | osm.py:35-68 | the stop table lists each mode once |
| OsmTags.MetroStationModes | osm.py:35-55 | a subway station is a subway stop and not a train stop |
| OsmTags.TagFilter | osm.py:438-442 | one tag filter is a bracketed clause |
| OsmTags.SetFilterOf | osm.py:437-442 | the filter of a tag set is empty exactly when the set is |
| OsmTags.SetFilters | osm.py:436-442 | one filter per tag set, empty exactly for an empty set |
| OsmTags.ModeTags | osm.py:434 | the table lookup misses exactly when no entry has the mode |
| OsmTags.Mode2OvpTags | osm.py:432-445 | the loop computes the filter list, and an unknown mode raises KeyError |
| OsmTags.TagsFilter | osm.py:437-442 | the inner loop computes the filter of one tag set |
| OsmTags.NonEmptyOfCount | osm.py:443-444 | only non-empty filters are kept |
| OsmTags.NonEmptyOfAll | osm.py:443-444 | when all filters are non-empty they are all kept, in order |
| OsmTags.FiltersSpec | osm.py:436-445 | every returned filter is non-empty, and with no empty tag set there is one filter per set |
| OsmTags.SetFilterClauses | osm.py:438-442 | the filter is the first tag's clause followed by the rest's |
| OsmTags.PairFilter | osm.py:438-442 | a valued tag gives `["k"="v"]` and a tag valued None gives `[!"k"]` |
| OsmTags.TrainStationSetFilter | osm.py:73 | the train station tags give `["railway"="station"][!"station"]` |
| OsmTags.StationTrainFilter | osm.py:70-76 | the train station filter list is the single filter `["railway"="station"][!"station"]` |
| OsmTags.RelId2UrlRoundTrip | osm.py:90-91 | the id can be read back from its link |
| OsmTags.Obj2Url | osm.py:94-95 | the link fails with KeyError exactly when the type is missing or unknown or the id is missing |
| OsmTags.Obj2UrlInjective | osm.py:94-95 | equal links come from the same type and id |
| Digitransit.Pieces | digitransit.py:48-52 | a window past midnight becomes two pieces, and any other window one |
| Digitransit.NormalizeHours | digitransit.py:42-53 | the loop returns the normalized windows; a window out of range raises ValueError, and None raises TypeError |
| Digitransit.PiecesOfLength | digitransit.py:44-53 | the pieces number one per window plus one per window past midnight |
| Digitransit.PiecesOfBounds | digitransit.py:44-53 | the pieces of in-range windows do not wrap and lie inside the day |
| Digitransit.PieceCovered | digitransit.py:48-52 | an hour inside one of the output pieces lies inside one of the input windows, read with wrap-around |
| Digitransit.WindowCovered | digitransit.py:48-52 | an hour of the day inside an input window, read with wrap-around, lies inside one of the output pieces |
| Digitransit.PiecesOfCovers | digitransit.py:44-53 | an hour of the day lies in some piece exactly when it lies in some window, read with wrap-around |
| Digitransit.NormalizedHoursSpec | digitransit.py:42-53 | ValueError exactly when some window is out of range; otherwise the count, range and coverage facts of the pieces hold |
| Digitransit.PiecesOfPrefix | digitransit.py:44-53 | the output for fewer windows is a prefix of the output for more |
| Digitransit.PiecesOfOrder | digitransit.py:44-53 | the output begins with the pieces of the windows before window `i` followed directly by the pieces of window `i`: input order is kept |
| Digitransit.GtfsId2Url | digitransit.py:146-147 | the link is the lines base followed by the id |
| Digitransit.Pattern2UrlReadBack | digitransit.py:150-152 | the pattern link is the lines base, the pattern code up to its second `:` (the route id), `/pysakit/` and the whole pattern code, so both ids read back from it |
| Digitransit.PatternRouteSpec | digitransit.py:152 | the route id is the code cut before its second colon: a prefix with at most one colon, followed by a colon or nothing, and the whole code when it has at most one colon |
| Hsl.Find | hsl.py:28-47 | a dictionary lookup misses exactly when no entry has the key, and otherwise returns an entry's value |
| Hsl.FindDistinct | hsl.py:28-47 | with distinct keys, a lookup returns a value exactly when that entry is present |
| Hsl.InvertedKeys | hsl.py:49-51 | a city has an entry exactly when some prefix maps to it |
| Hsl.InvertedSpec | hsl.py:49-51 | each city's list holds its prefixes in table order |
| Hsl.PrefixesOfMember | hsl.py:49-51 | a prefix is in a city's list exactly when the table maps it to that city |
| Hsl.City2PrefixesInverse | hsl.py:28-51 | `city2prefixes` inverts `prefix2city`: `p in city2prefixes[c]` exactly when `prefix2city[p] == c` |
| Hsl.HelsinkiPrefixes | hsl.py:29-31 | Helsinki has both the empty prefix and `H` |
| Hsl.AreaClauses | hsl.py:87-89 | one area clause per city, and KeyError exactly when a city has no municipality number |
| Hsl.GetOverpassArea | hsl.py:86-90 | the area is the clauses joined by spaces in `(...)->.hel;`, and KeyError exactly when a city has no municipality number |
| Hsl.MemberCitiesArea | hsl.py:92 | the module-level area for the member cities raises nothing |
| Hsl.AllNumbered | hsl.py:86-90 | when every city has a municipality number, the area is built |
| Hsl.AreaClauseSemicolons | hsl.py:88 | each clause ends its statement with exactly one semicolon |
| Hsl.JoinSemicolons | hsl.py:87-89 | joining the clauses keeps one semicolon each |
| Hsl.AreaWrapping | hsl.py:87-89 | the parentheses and `->.hel;` around the joined clauses add exactly one `;` |
| Hsl.OverpassAreaClauses | hsl.py:86-90 | the area starts with `(`, ends with `)->.hel;` and holds one statement per city plus the named set |
| Hsl.GetStopName | hsl.py:110-118 | without a numeric platform code the stop name is the name; with one there is a result |
| Hsl.StopNameSpec | hsl.py:110-118 | with a numeric platform code the name is followed by `, laituri ` and the code; otherwise it is the name unchanged |
| Hsl.FirstMatch | hsl.py:100-105 | the first alternative that matches at a position, or none exactly when none does |
| Hsl.Protect | hsl.py:105 | the substitution keeps the length |
| Hsl.LongNameStops | hsl.py:105-107 | one stop per hyphen left after protecting the known names, plus one |
| Hsl.MarkSpec | hsl.py:104 | a marked name holds no hyphen, and restoring it gives the same text as restoring the unmarked name (the name itself when it holds no placeholder) |
| Hsl.RestoreConcat | hsl.py:106 | restoring distributes over concatenation |
| Hsl.ProtectSpec | hsl.py:105 | protecting loses no text once restored, and never adds a hyphen |
| Hsl.RestoreJoin | hsl.py:105-106 | restoring a hyphen-joined list joins the restored parts |
| Hsl.LongNamePieces | hsl.py:95-107 | the restored pieces joined by hyphens give back the long name |
| Hsl.NoHyphenOneStop | hsl.py:95-107 | a long name without hyphens is one stop, stripped |
| Hsl.ProtectedNameKept | hsl.py:100-107 | a known hyphenated name at the start stays whole in the first stop |
| Seqs.SortAscending | util.py:144-146 | sorting gives an ascending permutation |
| Strs.JoinSplit | digitransit.py:152 | joining the split fields with the separator gives back the string |
| Strs.SplitCount | hsl.py:105 | splitting gives one more field than there are separators |
| Strs.Strip | hsl.py:106 | the stripped string is a slice of the input with only whitespace before and after it, and neither starts nor ends with whitespace |
| Strs.ParseIntToStr | osm.py:91 | the decimal form of an integer reads back as that integer |

## Left out

- The tables `prefix2city` and `city2ref` are lists of items looked up from the front. That the literal tables hold no key twice, which a Python dict guarantees, is not proved for the constants; `Hsl.City2PrefixesInverse` takes it as a precondition.
- Network access is not modelled: Overpass queries, the Digitransit HTTP requests, and overpy's `resolve()`. The resolved relation members are parameters.
- Logging, `print` and the reports written by taival.py, mediawiki.py and digiroad.py are not modelled. Those modules are not part of this model, apart from `match_shapes`.
- `osm.member_coord` is not modelled. The position of the first stop or platform is a field of the member, so `RouteShape.Anchor` takes it directly.
- Floating point is modelled as `real`. Rounding and NaN are not modelled, and `float(n.lat)` is the identity.
- `util.haversine` and `util.inv_haversine` are not modelled. `Overlap.InterpShape` and `Overlap.TestShapeOverlap` take the tolerance in degrees, and `Overlap.ISqrt` stands for `sqrt` followed by `int` on the count of pieces.
- RouteShape.RouteShape: requires every way member to have nodes (`WaysHaveNodes`), as OSM ways always do. For a way without nodes the source raises IndexError at `latlon[0]` (osm.py:248, 254) or `ways[0].nodes[-1]` (osm.py:261 and the indexing after it). A single empty way with no stop or platform is returned as an empty list. The model does not capture these cases.
- RouteGpx.Rel2Nodes: requires every way member to have nodes (`WaysHaveNodes`). For a way without nodes the source raises IndexError at the `nodes[0]` and `nodes[-1]` lookups (route2gpx.py:58-86). The model does not capture this case.
- Overlap.InterpShape: negative tolerances are excluded by `requires ltol >= 0.0`. In the source only the threshold `ltol**2` treats a negative tolerance like its absolute value. For a segment at least that long, `int(d/ltol)+1` is 0 when `d/ltol` lies in (-2, -1], and the division by `float(n)` raises ZeroDivisionError. For longer segments the count is negative, `range(1, n)` is empty, and only the end point is appended.
- Overlap.TestShapeOverlap: negative tolerances are excluded by `requires h >= 0.0`, for the same reason as in `Overlap.InterpShape`. The densification of `s2` would then raise ZeroDivisionError or insert no points, as described on the line above.
- Unicode `isdigit`, `isnumeric` and `isspace` are modelled by their ASCII cases.
- Regular expressions are not modelled in general. `re.sub` with the fixed alternation is modelled as a left-to-right scan taking the first alternative that matches (`Hsl.Protect`).
- Hsl.ProtectedNameKept: protection is stated only for a known name found at the start of the long name, not for every position.
- `Hsl.LongNamePieces` and `Hsl.NoHyphenOneStop` assume the long name holds no placeholder character. A placeholder in the input would come back as a hyphen.
- The Digitransit constructor and its API methods are not modelled. The constructor's calls to `normalize_hours` with the default `None` are covered by the TypeError of `Digitransit.NormalizeHours`.
- Hours in `Digitransit.NormalizeHours` and `Intervals.Arrivals2Intervals` are integers. The source would also accept floats.
- Intervals.Arrivals2Intervals: `None` hours are modelled as the empty list. The code treats both alike and returns empty lists, while its docstring says `None`.
- `list.sort()` is modelled as a function returning the sorted values (`Seqs.SortAscending`), not as an in-place sort.
- DictMerge.UniqKeyMerge: the KeyError for a record without the unique key is not modelled. The method requires every record to carry the key.
- Python dictionaries are association lists or maps here. Where iteration order matters (`prefix2city`, `stoptags`, the tag sets) they are sequences in source order.
- The stop, station and city-number tables are passed as parameters to the operations that read them (`OsmTags.StopTags2Mode`, `OsmTags.Mode2OvpTags`, `Hsl.GetOverpassArea`). The concrete tables are constants, used by the lemmas about them.
- Object identity is modelled as structural equality: overpy nodes compare by node id and position.
- The node lists that `osm.route_shape` and `rel2nodes` extend in place are modelled as values. overpy builds a fresh list on each access to `Way.nodes`, so the extension does not change the ways.
- A roundabout followed by another roundabout is handled as the code does, and flagged in a source comment as not working. The model does not claim anything more for it.
- `route_shape` returns `[[lat, lon]]` pairs. The model returns `LatLon` values.

## Findings

| source | as written | input that shows it | evidently intended | confidence | as-written member | corrected member |
|---|---|---|---|---|---|---|
| route2gpx.py:53 | `ndist2` computes `(n1.lon - n1.lon)**2`, so the longitude difference is always zero and only latitudes are compared | last node at (0, 0), next way from (0, 10) to (1, 0) across a gap: the way is appended starting at (0, 10), ten times farther than its other end | `(n1.lon - n2.lon)**2`, as in `osm.ndist2`, so the way starts at its nearer end | not executed | RouteGpx.FartherEndAsWritten | RouteGpx.NearerEndCorrected |
