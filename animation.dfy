/** `build_animation`: one output frame per target timestamp, each showing the
    record that `find_gps_record` picks for it, until no record does. */
module Animation {
  import opened Wrappers
  import opened Text
  import opened Fields
  import opened GpsTrace
  import opened Lookup
  import opened Viewport
  import opened TileCache
  import opened MapFrame

  /** The frame rate and the time multiplication `num / den` that scales
      recorded time per frame (the caller passes the reciprocal of the
      original time factor). */
  datatype Timing = Timing(fps: U32, num: nat, den: nat)

  /** A finite, positive time multiplication. */
  predicate ValidTiming(t: Timing)
  {
    t.num > 0 && t.den > 0
  }

  /** The saturating `as u32` of a non-negative whole number. */
  function Saturate(n: nat): (r: U32)
    ensures r <= n
    ensures r == n || r == U32_MAX
  {
    if n > U32_MAX then U32_MAX else n
  }

  /** `floor(start + k * (1 / fps) * (num / den)) as u32`. With `fps == 0`
      the frame time is infinite: frame 0 is `0 * inf`, NaN, which casts to
      0; every later frame is infinite and saturates. */
  function Target(t: Timing, start: U32, k: nat): (r: U32)
    requires ValidTiming(t)
    ensures t.fps > 0 ==> start <= r
    ensures k == 0 ==> r == (if t.fps == 0 then 0 else start)
  {
    if t.fps == 0 then (if k == 0 then 0 else U32_MAX)
    else
      ProductSigns(k, t.num, t.fps, t.den);
      Saturate(start + (k * t.num) / (t.fps * t.den))
  }

  /** The signs of the products in `Target`. */
  lemma ProductSigns(k: nat, num: nat, fps: nat, den: nat)
    requires fps > 0 && den > 0
    ensures k * num >= 0 && fps * den > 0
  {
  }

  /** The target is the floor of `start + k * num / (fps * den)`, or
      `u32::MAX` once that reaches it; with no frame rate, frame 0 targets 0
      and every later frame `u32::MAX`. */
  lemma TargetFloor(t: Timing, start: U32, k: nat)
    requires ValidTiming(t)
    ensures var target := Target(t, start, k);
      && (t.fps == 0 ==> target == (if k == 0 then 0 else U32_MAX))
      && (t.fps > 0 ==>
        var d := t.fps * t.den;
        || (target < U32_MAX && target * d <= start * d + k * t.num < (target + 1) * d)
        || (target == U32_MAX && start * d + k * t.num >= U32_MAX * d))
  {
    if t.fps > 0 {
      FloorShift(start, k * t.num, t.fps * t.den);
    }
  }

  /** `start + (a / d)` is the floor of `(start * d + a) / d`. */
  lemma FloorShift(start: nat, a: nat, d: nat)
    requires d > 0
    ensures (start + a / d) * d <= start * d + a < (start + a / d + 1) * d
  {
    var q := a / d;
    assert q * d <= a < q * d + d;
    assert (start + q) * d == start * d + q * d;
  }

  /** A frame count past which every target saturates. */
  function FrameBound(t: Timing): nat
  {
    if t.fps == 0 then 1 else U32_MAX * t.fps * t.den
  }

  /** `{output_dir}/{frame_count:0>6}.png` */
  function FramePath(outDir: string, k: nat): (p: string)
    ensures |p| >= |outDir| + 11
    ensures p[..|outDir| + 1] == outDir + "/" && p[|p| - 4..] == ".png"
  {
    ConcatEnds(outDir + "/", ZeroPad(NatToString(k), 6), ".png");
    outDir + "/" + ZeroPad(NatToString(k), 6) + ".png"
  }

  /** One written frame: its file, the record shown, the tile position that
      record resolves to, the map layout, and the flag passed to the writer. */
  datatype Frame = Frame(path: string, record: nat, pos: TilePos, layout: Layout, isLastFrame: bool)

  /** Frame `k` of the trip, or `None` where the loop stops. */
  function FrameAt(
    trip: seq<GpsData>, t: Timing, outDir: string, cacheDir: string, isLastTrip: bool,
    solve: (Coordinate, Coordinate) -> TilePos, k: nat): (f: Option<Frame>)
    requires ValidTiming(t)
    ensures trip == [] ==> f == None
    ensures trip != [] ==> (f.Some? <==> Lookup.Lookup(trip, Target(t, trip[0].timestamp, k)).Some?)
    ensures f.Some? ==> f.value.path == FramePath(outDir, k) && f.value.record < |trip|
    ensures f.Some? ==>
      var i := f.value.record;
      && Lookup.Lookup(trip, Target(t, trip[0].timestamp, k)) == Some(i)
      && f.value.pos == solve(trip[i].latitude, trip[i].longitude)
      && f.value.layout == LayoutFor(cacheDir, f.value.pos)
      && f.value.isLastFrame == (trip[|trip| - 1].timestamp == trip[i].timestamp && isLastTrip)
  {
    if trip == [] then None
    else
      match Lookup.Lookup(trip, Target(t, trip[0].timestamp, k))
      case None => None
      case Some(i) =>
        var gps := trip[i];
        var pos := solve(gps.latitude, gps.longitude);
        Some(Frame(FramePath(outDir, k), i, pos, LayoutFor(cacheDir, pos),
                   trip[|trip| - 1].timestamp == gps.timestamp && isLastTrip))
  }

  /** The cache after the frames' tiles were requested, frame by frame. */
  function RenderAll(c: Cache, frames: seq<Frame>, cacheDir: string, apiKey: string, provider: string -> Bytes): Cache
    decreases |frames|
  {
    if frames == [] then c
    else
      var n := |frames| - 1;
      var p := frames[n].pos;
      Requests(RenderAll(c, frames[..n], cacheDir, apiKey, provider), TileFiles(cacheDir, p), TileUrls(apiKey, p), provider)
  }

  lemma RenderAllSnoc(c: Cache, frames: seq<Frame>, f: Frame, cacheDir: string, apiKey: string, provider: string -> Bytes)
    ensures RenderAll(c, frames + [f], cacheDir, apiKey, provider)
      == Requests(RenderAll(c, frames, cacheDir, apiKey, provider), TileFiles(cacheDir, f.pos), TileUrls(apiKey, f.pos), provider)
  {
    assert (frames + [f])[..|frames|] == frames;
  }

  /** `frames` are frames `0 .. |frames| - 1` of the trip. */
  ghost predicate Timeline(
    trip: seq<GpsData>, t: Timing, outDir: string, cacheDir: string, isLastTrip: bool,
    solve: (Coordinate, Coordinate) -> TilePos, frames: seq<Frame>)
    requires ValidTiming(t)
  {
    forall k :: 0 <= k < |frames| ==> FrameAt(trip, t, outDir, cacheDir, isLastTrip, solve, k) == Some(frames[k])
  }

  lemma TimelineSnoc(
    trip: seq<GpsData>, t: Timing, outDir: string, cacheDir: string, isLastTrip: bool,
    solve: (Coordinate, Coordinate) -> TilePos, frames: seq<Frame>, f: Frame)
    requires ValidTiming(t)
    requires Timeline(trip, t, outDir, cacheDir, isLastTrip, solve, frames)
    requires FrameAt(trip, t, outDir, cacheDir, isLastTrip, solve, |frames|) == Some(f)
    ensures Timeline(trip, t, outDir, cacheDir, isLastTrip, solve, frames + [f])
  {
    var frames' := frames + [f];
    forall k | 0 <= k < |frames'|
      ensures FrameAt(trip, t, outDir, cacheDir, isLastTrip, solve, k) == Some(frames'[k])
    {
      if k < |frames| {
        assert frames'[k] == frames[k];
      }
    }
  }

  /** `build_animation` (without drawing and writing the images): the frames
      written, in order, with the cache requests they make. */
  method BuildAnimation(
    store: TileStore, apiKey: string, trip: seq<GpsData>, t: Timing, cacheDir: string, outDir: string,
    isLastTrip: bool, solve: (Coordinate, Coordinate) -> TilePos)
    returns (frames: seq<Frame>)
    requires ValidTiming(t)
    modifies store
    ensures forall k :: 0 <= k < |frames| ==> FrameAt(trip, t, outDir, cacheDir, isLastTrip, solve, k) == Some(frames[k])
    ensures FrameAt(trip, t, outDir, cacheDir, isLastTrip, solve, |frames|) == None
    ensures |frames| <= FrameBound(t)
    ensures Cache(store.disk, store.fetched)
      == RenderAll(Cache(old(store.disk), old(store.fetched)), frames, cacheDir, apiKey, store.provider)
  {
    frames := [];
    ghost var c0 := Cache(store.disk, store.fetched);
    if trip != [] {
      var frameCount: nat := 0;
      var startTimestamp := trip[0].timestamp;
      while true
        invariant |frames| == frameCount <= FrameBound(t)
        invariant Timeline(trip, t, outDir, cacheDir, isLastTrip, solve, frames)
        invariant Cache(store.disk, store.fetched) == RenderAll(c0, frames, cacheDir, apiKey, store.provider)
        decreases FrameBound(t) - frameCount
      {
        var framePath := FramePath(outDir, frameCount);
        var target := Target(t, startTimestamp, frameCount);
        ghost var k := frameCount;
        frameCount := frameCount + 1;
        var next := FindGpsRecord(trip, target);
        match next
        case Some(i) =>
          FramesBounded(trip, t, k);
          var frame := RenderFrame(store, apiKey, trip, t, cacheDir, outDir, isLastTrip, solve, k, framePath, i);
          RenderAllSnoc(c0, frames, frame, cacheDir, apiKey, store.provider);
          TimelineSnoc(trip, t, outDir, cacheDir, isLastTrip, solve, frames, frame);
          frames := frames + [frame];
        case None =>
          break;
      }
    }
  }

  /** The body of the loop for a frame `k` that has record `i`: draw the
      map frame, requesting its tiles, and hand the frame to the writer. */
  method RenderFrame(
    store: TileStore, apiKey: string, trip: seq<GpsData>, t: Timing, cacheDir: string, outDir: string,
    isLastTrip: bool, solve: (Coordinate, Coordinate) -> TilePos, ghost k: nat, framePath: string, i: nat)
    returns (frame: Frame)
    requires ValidTiming(t) && trip != []
    requires Lookup.Lookup(trip, Target(t, trip[0].timestamp, k)) == Some(i)
    requires framePath == FramePath(outDir, k)
    modifies store
    ensures FrameAt(trip, t, outDir, cacheDir, isLastTrip, solve, k) == Some(frame)
    ensures Cache(store.disk, store.fetched)
      == Requests(Cache(old(store.disk), old(store.fetched)), TileFiles(cacheDir, frame.pos), TileUrls(apiKey, frame.pos), store.provider)
  {
    var gps := trip[i];
    var layout := BuildMapFrame(store, apiKey, gps, cacheDir, solve);
    var isLastFrame := trip[|trip| - 1].timestamp == gps.timestamp && isLastTrip;
    frame := Frame(framePath, i, solve(gps.latitude, gps.longitude), layout, isLastFrame);
  }

  /** Every target at or past `FrameBound` saturates, where no record
      follows it, so the loop runs fewer than `FrameBound` times. */
  lemma FramesBounded(trip: seq<GpsData>, t: Timing, k: nat)
    requires ValidTiming(t) && trip != []
    requires Lookup.Lookup(trip, Target(t, trip[0].timestamp, k)).Some?
    ensures k < FrameBound(t)
  {
    if k >= FrameBound(t) {
      TargetSaturates(t, trip[0].timestamp, k);
      LookupPastEnd(trip);
    }
  }

  /** No timestamp exceeds `u32::MAX`, so a saturated target finds nothing. */
  lemma LookupPastEnd(trip: seq<GpsData>)
    ensures Lookup.Lookup(trip, U32_MAX) == None
  {
    assert forall j :: 0 <= j < |trip| ==> trip[j].timestamp <= U32_MAX;
  }

  /** From `FrameBound` on, the target is `u32::MAX`. */
  lemma TargetSaturates(t: Timing, start: U32, k: nat)
    requires ValidTiming(t) && k >= FrameBound(t)
    ensures Target(t, start, k) == U32_MAX
  {
    if t.fps > 0 {
      var d := t.fps * t.den;
      assert k >= U32_MAX * d;
      assert k * t.num >= U32_MAX * d by {
        assert k * t.num >= k;
      }
      DivAtLeast(k * t.num, U32_MAX, d);
    }
  }

  lemma DivAtLeast(a: nat, m: nat, d: nat)
    requires d > 0 && a >= m * d
    ensures a / d >= m
  {
    var q := a / d;
    assert a < (q + 1) * d;
    MulLess(m, q + 1, d);
  }

  /** Cancelling a positive factor. */
  lemma MulLess(x: int, y: int, d: int)
    requires d > 0 && x * d < y * d
    ensures x < y
  {
    assert (y - x) * d == y * d - x * d > 0;
  }

  /** Later frames never target an earlier time. */
  lemma TargetMonotone(t: Timing, start: U32, j: nat, k: nat)
    requires ValidTiming(t) && j <= k
    ensures Target(t, start, j) <= Target(t, start, k)
  {
    if t.fps > 0 {
      var d := t.fps * t.den;
      assert j * t.num <= k * t.num;
      DivMonotone(j * t.num, k * t.num, d);
    }
  }

  lemma DivMonotone(a: nat, b: nat, d: nat)
    requires d > 0 && a <= b
    ensures a / d <= b / d
  {
    var p, q := a / d, b / d;
    assert p * d <= a && b < (q + 1) * d;
    MulLess(p, q + 1, d);
  }

  /** Frame files are `outDir/` and six digits for the first million frames,
      more digits after; the digits always spell the frame number. */
  lemma FramePathWidth(outDir: string, k: nat)
    ensures var digits := ZeroPad(NatToString(k), 6);
      && FramePath(outDir, k) == outDir + "/" + digits + ".png"
      && (|digits| == 6 <==> k < Pow10(6))
      && AllDigits(digits) && Decimal(digits) == k
  {
    var s := NatToString(k);
    NatToStringLength(k, 6);
    ZeroPadDecimal(k, 6);
  }

  /** Distinct frames are written to distinct files. */
  lemma FramePathInjective(outDir: string, j: nat, k: nat)
    requires FramePath(outDir, j) == FramePath(outDir, k)
    ensures j == k
  {
    var dj, dk := ZeroPad(NatToString(j), 6), ZeroPad(NatToString(k), 6);
    var a := outDir + "/";
    ConcatEnds(a, dj, ".png");
    ConcatEnds(a, dk, ".png");
    assert |dj| == |dk|;
    assert dj == dk;
    ZeroPadDecimal(j, 6);
    ZeroPadDecimal(k, 6);
  }

  /** With sorted timestamps and a finite frame time, no frame is flagged as
      the last one: the writer never sets the all-frames-dumped flag. */
  lemma NoFrameMarkedLast(
    trip: seq<GpsData>, t: Timing, outDir: string, cacheDir: string, isLastTrip: bool,
    solve: (Coordinate, Coordinate) -> TilePos, k: nat)
    requires ValidTiming(t) && t.fps > 0 && Sorted(trip)
    requires FrameAt(trip, t, outDir, cacheDir, isLastTrip, solve, k).Some?
    ensures !FrameAt(trip, t, outDir, cacheDir, isLastTrip, solve, k).value.isLastFrame
  {
    var start := trip[0].timestamp;
    var target := Target(t, start, k);
    TargetMonotone(t, start, 0, k);
    SortedLookupBeforeLast(trip, target);
  }

  /** Two records at 0 s and 5 s, 10 frames per second, time multiplication
      1: frames 0 to 49 show the first record and frame 50 finds none, since
      the last record is never returned. */
  lemma TwoRecordTimeline(outDir: string, cacheDir: string, isLastTrip: bool, solve: (Coordinate, Coordinate) -> TilePos)
    ensures var trip, t := [Sample(0), Sample(5)], Timing(10, 1, 1);
      && (forall k :: 0 <= k < 50 ==>
            (FrameAt(trip, t, outDir, cacheDir, isLastTrip, solve, k).Some?
             && FrameAt(trip, t, outDir, cacheDir, isLastTrip, solve, k).value.record == 0))
      && FrameAt(trip, t, outDir, cacheDir, isLastTrip, solve, 50).None?
  {
    var trip, t := [Sample(0), Sample(5)], Timing(10, 1, 1);
    forall k | 0 <= k < 50
      ensures FrameAt(trip, t, outDir, cacheDir, isLastTrip, solve, k).Some?
      ensures FrameAt(trip, t, outDir, cacheDir, isLastTrip, solve, k).value.record == 0
    {
      assert Target(t, 0, k) == k / 10 < 5;
      assert FirstAfter(trip, k / 10) == 1;
    }
    assert Target(t, 0, 50) == 5;
  }

  /** Without a frame rate, frame 0 targets 0, which is clamped to the first
      record of a trip that starts later: for a one-record last trip that
      record is also the last one, so the frame is flagged as the last. */
  lemma ZeroFpsMarksLast(outDir: string, cacheDir: string, solve: (Coordinate, Coordinate) -> TilePos)
    ensures var f := FrameAt([Sample(5)], Timing(0, 1, 1), outDir, cacheDir, true, solve, 0);
      f.Some? && f.value.record == 0 && f.value.isLastFrame
  {
    assert Target(Timing(0, 1, 1), 5, 0) == 0;
    assert FirstAfter([Sample(5)], 0) == 0;
  }

  /** No file that was on disk before the animation changes. */
  lemma {:induction false} RenderAllKeeps(c: Cache, frames: seq<Frame>, cacheDir: string, apiKey: string, provider: string -> Bytes)
    ensures forall g :: g in c.disk ==>
      (g in RenderAll(c, frames, cacheDir, apiKey, provider).disk && RenderAll(c, frames, cacheDir, apiKey, provider).disk[g] == c.disk[g])
    decreases |frames|
  {
    if frames != [] {
      var n := |frames| - 1;
      var p := frames[n].pos;
      RenderAllKeeps(c, frames[..n], cacheDir, apiKey, provider);
      RequestsKeepEntries(RenderAll(c, frames[..n], cacheDir, apiKey, provider), TileFiles(cacheDir, p), TileUrls(apiKey, p), provider);
    }
  }

  /** After the animation, every frame's tiles are on disk. */
  lemma {:induction false} RenderAllHolds(
    c: Cache, frames: seq<Frame>, cacheDir: string, apiKey: string, provider: string -> Bytes, k: nat)
    requires k < |frames|
    ensures forall g :: g in TileFiles(cacheDir, frames[k].pos) ==> g in RenderAll(c, frames, cacheDir, apiKey, provider).disk
    decreases |frames|
  {
    var n := |frames| - 1;
    var prefix := frames[..n];
    RenderAllGrows(c, frames, cacheDir, apiKey, provider);
    if k < n {
      RenderAllHolds(c, prefix, cacheDir, apiKey, provider, k);
      assert prefix[k] == frames[k];
    } else {
      assert k == n;
    }
  }

  /** The last frame's tiles join what the earlier frames left on disk. */
  lemma RenderAllGrows(c: Cache, frames: seq<Frame>, cacheDir: string, apiKey: string, provider: string -> Bytes)
    requires frames != []
    ensures var n := |frames| - 1;
      var before := RenderAll(c, frames[..n], cacheDir, apiKey, provider).disk;
      forall g :: g in before || g in TileFiles(cacheDir, frames[n].pos) ==>
        g in RenderAll(c, frames, cacheDir, apiKey, provider).disk
  {
    var n := |frames| - 1;
    var before := RenderAll(c, frames[..n], cacheDir, apiKey, provider);
    var files, urls := TileFiles(cacheDir, frames[n].pos), TileUrls(apiKey, frames[n].pos);
    assert RenderAll(c, frames, cacheDir, apiKey, provider) == Requests(before, files, urls, provider);
    RequestsKeys(before, files, urls, provider);
  }
}
