# dash_to_map in Dafny

`dash_to_map` reads a 70mai dash-cam GPS trace and renders one map image per
video frame for each trip in the trace. It resolves each record to its
slippy-map tile (zoom 15), draws the fix's tile and three neighbours around a
red marker, and caches the tiles it downloads from Geoapify on disk. This
project models the program's logic in Dafny and proves what that logic
guarantees.

The modules follow the program's own structure:

- `GpsTrace` models `extract_gps_data`. Lines are classified as separators or
  records. `Group` folds them into trips with `AddLine`, and the method
  `ExtractGpsData` runs the loop of `extract_gps_data` over `trips`, `gps_trip_index` and
  `first_line`. A panic on a bad field (`unwrap` on a failed parse or a
  missing part) becomes a `Failure(LineError(line, why))`.
- `Fields` covers the three `str::parse` grammars the reader uses: `u32`,
  `i32` and, as a predicate, `f64`.
- `Text` covers `str::split`, `{}` for integers and `{:0>6}`.
- `Lookup` models `find_gps_record`. It is a loop with an early return,
  proved against the function `Lookup`, which returns the index of the found
  record.
- `Animation` models the frame loop of `build_animation`. Time is exact
  rational arithmetic. Each frame's record, path and "last frame" flag are
  given by `FrameAt`, and the tile requests of all frames so far are given
  by `RenderAll`.
- `Viewport` covers the integer geometry of `build_map_frame`: neighbour
  selection, the four destination rectangles and the marker.
- `MapFrame` models `build_map_frame`'s four `download_or_get` calls as a
  fold `Requests` over a `Cache` value.
- `TileCache` models `download_or_get`. The disk is a class `TileStore` with
  a map from path to bytes. The tile provider is a function from URL to
  bytes, and every fetched URL is logged.

Time: `main` passes `time_multiplication = 1 / originaltimefactor`, and
`build_animation` multiplies it with `1 / fps`. The model takes
`time_multiplication` as an exact fraction `num / den`. Frame `k` therefore
targets `floor(start + k * num / (fps * den))`, cast to `u32` with Rust's
saturating `as`. With `fps == 0`, the frame time is infinite in `f64`. Frame
0 then computes `0 * inf`, which is NaN, and the cast turns it into 0. Every
later frame is `+inf`, which saturates to `u32::MAX`.

Where the program's documentation and its code differ, the model
follows the code:

- Two records at 0 s and 5 s, at 10 fps with factor 1, give 50 frames of the
  first record, not two frames. See `TwoRecordTimeline`.
- On a sorted trip, `find_gps_record` never returns the last record for a
  target at or after the trip's first timestamp. At a positive frame rate
  every target is at or after that timestamp, so no frame of a sorted trip
  sets `ALL_FRAMES_DUMPED`, and the final busy-wait in `main` would not end.
  See `SortedLookupBeforeLast` and `NoFrameMarkedLast`. The busy-wait is
  reached only when no trip is empty: `main` calls
  `gps_data.first().unwrap()` on each trip first (main.rs:86) and panics on
  an empty one.
- The exception is a target before the first timestamp, which is clamped
  to record 0. On a one-record trip that record is also the last one. With
  `fps == 0`, frame 0 targets 0, so a one-record last trip with a positive
  timestamp does get its frame flagged as the last. See `LookupNeverLast`
  and `ZeroFpsMarksLast`.

Inputs of other kinds become parameters:

- the trace file's text (`content`);
- `solve_tile`'s result (`solve`, a function from the two coordinates to a
  `TilePos`);
- what the tile server serves for each URL (`provider`).

## Model

| member | source | states |
|---|---|---|
| Text.Split | dash_to_map/src/main.rs:322 | `str::split` on one character: one part more than there are separators, no part contains the separator, and joining the parts with it gives back the text |
| Text.NatToString | dash_to_map/src/main.rs:392 | `{}` of a non-negative integer: non-empty decimal digits with no leading zero, whose value is the number |
| Text.IntToString | dash_to_map/src/main.rs:399 | `{}` of an integer: a non-empty text of digits and at most a leading `-`, which is there exactly when the number is negative; the digits spell the number's absolute value |
| Text.ZeroPad | dash_to_map/src/main.rs:186 | `{:0>w}`: the text itself when it is at least `w` long, otherwise the text padded on the left with zeros to exactly `w` characters |
| Text.SplitTrailingSeparator | dash_to_map/src/main.rs:322 | a text ending in the separator splits into the parts of the text before it plus one empty part |
| Fields.ParseU32 | dash_to_map/src/main.rs:337 | accepted `u32` text is non-empty and is digits after at most a leading `+` |
| Fields.ParseI32 | dash_to_map/src/main.rs:344-352 | accepted `i32` text is non-empty and is digits after at most a leading sign; a negative value has a leading `-` |
| Fields.IsFloatLiteral | dash_to_map/src/main.rs:340-341 | an empty text or a lone sign is not a float literal |
| Fields.ParseU32RoundTrip | dash_to_map/src/main.rs:337 | the decimal text of every `u32` parses back to it |
| Fields.ParseU32Rejects | dash_to_map/src/main.rs:337 | a minus-signed number and any number above `u32::MAX` are not `u32` text, so such a timestamp aborts |
| Fields.ParseI32RoundTrip | dash_to_map/src/main.rs:344-352 | the decimal text of every `i32` parses back to it |
| Fields.IntegerIsFloatLiteral | dash_to_map/src/main.rs:340-341 | the text of any integer is accepted as a float literal, so an integer coordinate is kept, not replaced by 0.0 |
| GpsTrace.ParseCoordinate | dash_to_map/src/main.rs:340-341 | `parse::<f64>().unwrap_or(0.0)`: the 0.0 default exactly when the text is not a float literal, otherwise the text itself |
| GpsTrace.ParseNumbers | dash_to_map/src/main.rs:343-353 | the status fields parse exactly when every one of them is present and an `i32`; each value is the parse of its part; otherwise the error is for the first part that is missing or not an `i32` |
| GpsTrace.ParseRecord | dash_to_map/src/main.rs:337-361 | a record line yields a record exactly when it has at least 13 parts, part 0 is a `u32` and parts 4-12 are `i32`s; the record's timestamp, letter, coordinates and nine numbers are the parses of its parts |
| GpsTrace.ShortRecordAborts | dash_to_map/src/main.rs:337-353 | a line with 2 to 12 parts always aborts: on the timestamp if it is bad, else with a good timestamp on part 2 or 3 when the line ends there, else on the first of parts 4-12 that is missing or not an `i32` |
| GpsTrace.FieldHandling | dash_to_map/src/main.rs:337-353 | a bad timestamp aborts; a bad latitude or longitude becomes 0.0; good integer fields never abort |
| GpsTrace.ExtraPartsIgnored | dash_to_map/src/main.rs:337-361 | parts after index 12 do not change the outcome of a record line |
| GpsTrace.ClassifyLine | dash_to_map/src/main.rs:329-364 | a line is a separator exactly when it has no comma; a comma line is a record exactly when its comma-split parts parse as a record, and then it is that record; otherwise the error is that parse's error, carrying the line's number |
| GpsTrace.AddLine | dash_to_map/src/main.rs:331-363 | a record is appended to the last trip; a separator opens a new empty trip, except on the first line; earlier trips never change |
| GpsTrace.Group | dash_to_map/src/main.rs:323-335 | the grouping of the lines always has at least one trip |
| GpsTrace.Segment | dash_to_map/src/main.rs:323-326 | a trace that is read without aborting has at least one trip, so `gps_trips.len() - 1` does not underflow |
| GpsTrace.FirstBadLine | dash_to_map/src/main.rs:328-364 | the first line that aborts: every comma line before it parses, and it is a comma line whose parts do not parse, or it is past the end when no line aborts |
| GpsTrace.SegmentText | dash_to_map/src/main.rs:320-370 | in terms of the text's lines: reading succeeds exactly when every comma line parses; the trips are one more than the comma-less lines after the first, and laid end to end they are the parsed comma lines in file order; a failure is the error of the first comma line that does not parse, with its line number; each comma line's record is in trip number `TextOpeners(lines[..n + 1])`, the trip opened by the last comma-less line before it |
| GpsTrace.GroupPrefix | dash_to_map/src/main.rs:328-366 | reading more lines never changes a finished trip and only appends to the trip being read |
| GpsTrace.RecordTrip | dash_to_map/src/main.rs:331-363 | a record line is pushed onto trip number `Openers(ls[..n + 1])`, the trip opened by the last separator before it (the first trip when there is none after line 0) |
| GpsTrace.SegmentTrips | dash_to_map/src/main.rs:320-370 | on the text: the record of comma line `n` is in trip number `TextOpeners(lines[..n + 1])` of the result |
| GpsTrace.GroupCount | dash_to_map/src/main.rs:323-335 | there is one trip more than there are comma-less lines after the first line |
| GpsTrace.GroupFlatten | dash_to_map/src/main.rs:355-363 | the trips laid end to end are every record of the trace, in file order |
| GpsTrace.SingleTrip | dash_to_map/src/main.rs:323-335 | with no separator after the first line, there is a single trip holding every record |
| GpsTrace.TrailingNewlineOpensEmptyTrip | dash_to_map/src/main.rs:322-335 | a trace ending in `\n`, when it is read without aborting, gives at least two trips, the last of them empty |
| GpsTrace.ReadLine | dash_to_map/src/main.rs:329-366 | one iteration aborts exactly when the line's classification fails, with that error; otherwise the trips advance by `AddLine` and the index stays on the last trip |
| GpsTrace.ExtractGpsData | dash_to_map/src/main.rs:320-370 | the loop yields the grouping of the classified lines, or the error of the first line that aborts |
| Lookup.FirstAfter | dash_to_map/src/main.rs:137-155 | the first index whose timestamp exceeds the target: every earlier record is at or before it, or the length when there is none |
| Lookup.Lookup | dash_to_map/src/main.rs:133-159 | nothing exactly when no timestamp exceeds the target (including an empty trip); otherwise the record before the first later one, or record 0 when that is the first |
| Lookup.FindGpsRecord | dash_to_map/src/main.rs:133-159 | the index loop returns what `Lookup` specifies |
| Lookup.LookupNeverLast | dash_to_map/src/main.rs:133-159 | the last record is returned only as the clamped first record of a one-record trip |
| Lookup.SortedLookupBeforeLast | dash_to_map/src/main.rs:133-159 | on a sorted trip and a target at or after its start, the record found is no later than the target and strictly earlier than the last record |
| Lookup.LookupMonotone | dash_to_map/src/main.rs:133-159 | on any trip, sorted or not, a later target never finds an earlier record |
| Lookup.LookupExamples | dash_to_map/src/main.rs:133-159 | for timestamps 10, 20, 35: target 34 finds the second record, target 5 the first, target 35 nothing |
| Viewport.OffsetSign | dash_to_map/src/main.rs:267-279 | each offset is -1 or +1 |
| Viewport.Tiles | dash_to_map/src/main.rs:281-288 | the four tiles start with the fix's own tile, lie within one tile of it on each axis, and form a 2x2 square. Tile 1 is in the fix's row but another column, tile 3 in the fix's column but another row, and tile 2 at the far corner |
| Viewport.Placements | dash_to_map/src/main.rs:300-313 | four 256x256 rectangles forming a 2x2 grid: rectangle 1 beside rectangle 0 one tile width away, rectangle 3 above or below it one tile height away, rectangle 2 at the far corner |
| Viewport.NeighbourChoice | dash_to_map/src/main.rs:264-293 | offset -1 exactly when the pixel is in the lower half, +1 otherwise; the tiles are `(x,y)`, `(x+ox,y)`, `(x+ox,y+oy)`, `(x,y+oy)`, distinct and in `i16` range, with no wrap-around |
| Viewport.WindowInTiles | dash_to_map/src/main.rs:264-293 | every map pixel within half a tile of the fix lies in one of the four tiles |
| Viewport.PlacementsStitch | dash_to_map/src/main.rs:300-313 | every tile is copied, 256 by 256, to `256 * (tile - fix tile) + 128 - pixel`: one translation for all four |
| Viewport.FixAtCentre | dash_to_map/src/main.rs:300-316 | the fix's pixel lands at (128, 128), inside the centre tile's rectangle, at the centre of the marker `(126, 126, 4, 4)` |
| Viewport.ViewportCovered | dash_to_map/src/main.rs:300-313 | every viewport pixel is covered by exactly one of the four rectangles |
| TileCache.TilePath | dash_to_map/src/main.rs:392 | the tile's path starts with the cache directory and `/` and ends in `.webp` |
| TileCache.TileUrl | dash_to_map/src/main.rs:399 | the tile's URL starts with `{BASE_URL}tile/osm-carto/` and ends in `.png?apiKey=` and the key |
| TileCache.TileStore.Fetch | dash_to_map/src/main.rs:405-412 | the download returns what the provider serves for the URL and appends the URL to the fetch log |
| TileCache.TilePathInjective | dash_to_map/src/main.rs:392 | within one cache directory, different tiles have different paths `{cache}/{zoom}/{x}/{y}.webp` |
| TileCache.TileUrlInjective | dash_to_map/src/main.rs:399 | different tiles or keys give different URLs `{BASE_URL}tile/osm-carto/{zoom}/{x}/{y}.png?apiKey={key}` |
| TileCache.TileStore.DownloadOrGet | dash_to_map/src/main.rs:391-416 | returns the tile's path, which is then on disk; when the path was absent, it fetches its URL once and stores what the provider serves; when present, nothing changes |
| TileCache.RequestTwice | dash_to_map/src/main.rs:391-416 | a second call for the same tile returns the same path and fetches nothing; when the tile was cached nothing changes, when it was missing its URL is fetched once and the file holds what the provider serves; existing files are untouched |
| MapFrame.Request | dash_to_map/src/main.rs:290-293 | one `download_or_get` on the cache value: the file is then on disk, old files keep their contents, a cached file fetches nothing, a missing one is fetched once and holds the served bytes |
| MapFrame.Requests | dash_to_map/src/main.rs:290-293 | a run of requests only appends to the fetch log, at most one fetch per request |
| MapFrame.CacheTile | dash_to_map/src/main.rs:290-293 | the `i`-th `download_or_get` returns tile `i`'s file and changes the store as one `Request` |
| MapFrame.TileFilesDistinct | dash_to_map/src/main.rs:281-293 | the four tile files of a frame are distinct |
| MapFrame.RequestsKeys | dash_to_map/src/main.rs:290-293 | after the requests, the disk holds exactly its old files plus the requested ones |
| MapFrame.RequestsKeepEntries | dash_to_map/src/main.rs:290-293 | no file already on disk is rewritten |
| MapFrame.RequestsStore | dash_to_map/src/main.rs:290-293 | a missing requested file holds what its URL serves |
| MapFrame.RequestsFetched | dash_to_map/src/main.rs:290-293 | the fetch log grows by the URLs of exactly the missing files, in request order |
| MapFrame.RequestsIdempotent | dash_to_map/src/main.rs:290-293 | requesting the same files again changes neither the disk nor the fetch log |
| MapFrame.FrameCacheEffect | dash_to_map/src/main.rs:290-293 | one frame's effect on the cache: the four tiles on disk, old files untouched, each missing tile holding what its URL serves, and a fetch for exactly the missing ones |
| MapFrame.BuildMapFrame | dash_to_map/src/main.rs:259-316 | the layout is the fix's four tile files, their placements and the marker; the cache is the old cache after the four requests in the source's order |
| Animation.Saturate | dash_to_map/src/main.rs:195 | the `as u32` cast of a non-negative value: the value itself or `u32::MAX`, never more than the value |
| Animation.Target | dash_to_map/src/main.rs:182-195 | at a positive frame rate no target is before the trip's start; frame 0 targets the start, or 0 without a frame rate |
| Animation.TargetFloor | dash_to_map/src/main.rs:182-195 | the target is the floor of `start + k * num / (fps * den)`, or `u32::MAX` once that reaches it; with `fps == 0`, frame 0 targets 0 and every later frame `u32::MAX` |
| Animation.TargetMonotone | dash_to_map/src/main.rs:182-195 | targets never decrease with the frame number |
| Animation.TargetSaturates | dash_to_map/src/main.rs:182-195 | from `FrameBound` on, every target is `u32::MAX` |
| Animation.FramesBounded | dash_to_map/src/main.rs:184-219 | a frame that finds a record comes before `FrameBound`, so the loop terminates |
| Animation.FramePath | dash_to_map/src/main.rs:186 | the frame's file is in the output directory and ends in `.png`, with at least six characters between |
| Animation.FramePathWidth | dash_to_map/src/main.rs:186 | the frame file name is exactly six digits for frames below 10^6, and its digits always spell the frame number |
| Animation.FramePathInjective | dash_to_map/src/main.rs:186 | different frames are written to different files |
| Animation.FrameAt | dash_to_map/src/main.rs:179-207 | an empty trip has no frames; otherwise frame `k` exists exactly when the lookup of its target finds a record; the frame shows that record, its path is `{out}/{k:0>6}.png`, its tile position is the record's resolved position and its layout that position's layout; it is flagged last exactly when the record has the trip's last timestamp and the trip is the last one |
| Animation.NoFrameMarkedLast | dash_to_map/src/main.rs:206 | with a finite frame time and a sorted trip, no frame is passed `is_last_frame == true` |
| Animation.ZeroFpsMarksLast | dash_to_map/src/main.rs:182-206 | without a frame rate, a one-record last trip at 5 s has frame 0 clamped to its only record and flagged last |
| Animation.TwoRecordTimeline | dash_to_map/src/main.rs:179-219 | records at 0 s and 5 s at 10 fps: frames 0-49 show the first record, and frame 50 ends the loop |
| Animation.BuildAnimation | dash_to_map/src/main.rs:179-219 | the frames written are exactly frames 0 to K-1, contiguous, where frame K is the first without a record, so K is determined by the inputs; K is at most `FrameBound`; the cache is the old one after every frame's four requests, in frame order |
| Animation.RenderFrame | dash_to_map/src/main.rs:199-207 | one found frame: its content is `FrameAt(k)`, and the cache takes that frame's four requests |
| Animation.RenderAllKeeps | dash_to_map/src/main.rs:201 | no file on disk before the animation changes during it |
| Animation.RenderAllHolds | dash_to_map/src/main.rs:201 | after the animation, every frame's four tiles are on disk |

## Left out

- Drawing: the SDL canvas, the window, textures, `canvas.copy`, `fill_rect` and `present_canvas_to_window`. The model keeps only which file goes to which rectangle and where the marker goes.
- Image encoding, the writer thread spawned by `write_canvas_to_file`, and the `ALL_FRAMES_DUMPED` atomic with `main`'s busy-wait. A thread and a codec are not modelled; the flag's value is kept as `Frame.isLastFrame`.
- Networking and file I/O: curl, `File::create`, `create_dir_all`, `Path::exists` and `fs::read_to_string`. The disk is the map `TileStore.disk`, a fetch is `TileStore.Fetch` over the `provider` function, and a failed download, which would leave a partial file behind, is not modelled.
- `solve_tile`: floating-point Web-Mercator arithmetic. Its result is the parameter `solve`; the geometry lemmas require `ValidPos` (pixel in `[0, 256)`, the fix's tile and its chosen neighbours inside `i16`).
- Floating-point time: `f32` and `f64` evaluation of `time_multiplication`, the frame time and the target, including the rounding of `1_f32 / originaltimefactor`. The model uses the exact fraction `num / den`.
- `Animation.ValidTiming`: the model requires the time multiplication `1_f32 / originaltimefactor` (main.rs:71) to be a positive, finite fraction `num / den`. This excludes every factor that makes the multiplication zero, negative, infinite or NaN: a factor that is zero, negative, infinite or NaN, and a positive factor so small that the `f32` division overflows to infinity. A factor above 1 is outside the range documented at main.rs:45 but still gives a positive finite multiplication, and the model covers it. The program itself rejects none of these values.
- `Animation.Target`: does not model `f64` rounding; the exact rational floor can differ from the `f64` floor by one when the product is very close to a whole number.
- Coordinates: the `f64` value of a latitude or longitude. A coordinate is kept as its text, or as the 0.0 default. The model tells `Parsed("0.0")` and `ZeroDefault` apart, but the program cannot: both are the `f64` value 0.0. No lemma depends on the difference.
- `i16` casts and overflow in `build_map_frame`: indices are unbounded integers, restricted by `ValidPos`: the fix's tile and the neighbours chosen for it must be in `i16` range, so no addition wraps. `solve_tile` returns `u16` values, and the `as i16` cast of one above `i16::MAX` is not modelled.
- `u32` overflow of `frame_count` after 2^32 frames: the count is a `nat`.
- `main`: argument parsing, per-trip directory creation, and the panic of `gps_data.first().unwrap()` on an empty trip. An empty trip can occur, as `TrailingNewlineOpensEmptyTrip` shows.
- UTF-8 decoding of the trace file: the text is a sequence of characters.
- The `println!` progress output.
