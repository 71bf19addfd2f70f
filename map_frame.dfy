/** `build_map_frame`: resolve the fix to a tile, make sure the fix's tile and
    its three chosen neighbours are cached, and lay them out in the viewport. */
module MapFrame {
  import opened Viewport
  import opened TileCache
  import opened GpsTrace

  /** What one frame is composed of: the four tile files in copy order, the
      rectangle each is copied to, and the marker drawn last. */
  datatype Layout = Layout(files: seq<string>, targets: seq<Rect>, marker: Rect)

  /** The cache path of each of the four tiles. */
  function TileFiles(cacheDir: string, p: TilePos): (fs: seq<string>)
    ensures |fs| == 4
  {
    var ts := Tiles(p);
    seq(4, i requires 0 <= i < 4 => TilePath(cacheDir, MAP_ZOOM, ts[i].x, ts[i].y))
  }

  /** The URL of each tile, in the same order. */
  function TileUrls(apiKey: string, p: TilePos): (us: seq<string>)
    ensures |us| == 4
  {
    var ts := Tiles(p);
    seq(4, i requires 0 <= i < 4 => TileUrl(apiKey, MAP_ZOOM, ts[i].x, ts[i].y))
  }

  /** Tile `i`'s file and URL, for the tile `Tiles(p)[i]`. */
  lemma TileAt(cacheDir: string, apiKey: string, p: TilePos, i: nat)
    requires i < 4
    ensures TileFiles(cacheDir, p)[i] == TilePath(cacheDir, MAP_ZOOM, Tiles(p)[i].x, Tiles(p)[i].y)
    ensures TileUrls(apiKey, p)[i] == TileUrl(apiKey, MAP_ZOOM, Tiles(p)[i].x, Tiles(p)[i].y)
  {
  }

  /** The layout of the frame for a fix resolved to `p`. */
  function LayoutFor(cacheDir: string, p: TilePos): Layout
  {
    Layout(TileFiles(cacheDir, p), Placements(p), MARKER)
  }

  /** The four tile files are distinct, so each missing tile is fetched once. */
  lemma TileFilesDistinct(cacheDir: string, p: TilePos)
    requires ValidPos(p)
    ensures Distinct(TileFiles(cacheDir, p))
  {
    NeighbourChoice(p);
    var ts := Tiles(p);
    forall i, j | 0 <= i < j < 4
      ensures TileFiles(cacheDir, p)[i] != TileFiles(cacheDir, p)[j]
    {
      TileAt(cacheDir, "", p, i);
      TileAt(cacheDir, "", p, j);
      if TileFiles(cacheDir, p)[i] == TileFiles(cacheDir, p)[j] {
        TilePathInjective(cacheDir, MAP_ZOOM, ts[i].x, ts[i].y, MAP_ZOOM, ts[j].x, ts[j].y);
      }
    }
  }

  predicate Distinct(s: seq<string>)
  {
    forall i, j :: 0 <= i < j < |s| ==> s[i] != s[j]
  }

  /** The disk together with the log of fetched URLs. */
  datatype Cache = Cache(disk: map<string, Bytes>, fetched: seq<string>)

  /** The effect of one `download_or_get` of `file`, served from `url`. */
  function Request(c: Cache, file: string, url: string, bytes: Bytes): (r: Cache)
    ensures r.disk.Keys == c.disk.Keys + {file}
    ensures forall g :: g in c.disk ==> r.disk[g] == c.disk[g]
    ensures file in c.disk ==> r.fetched == c.fetched
    ensures file !in c.disk ==> r.disk[file] == bytes && r.fetched == c.fetched + [url]
  {
    if file in c.disk then c else Cache(c.disk[file := bytes], c.fetched + [url])
  }

  /** The effect of requesting `files` in order, `urls[i]` serving `files[i]`. */
  function Requests(c: Cache, files: seq<string>, urls: seq<string>, provider: string -> Bytes): (r: Cache)
    requires |files| == |urls|
    ensures |c.fetched| <= |r.fetched| <= |c.fetched| + |files|
    ensures r.fetched[..|c.fetched|] == c.fetched
    decreases |files|
  {
    if files == [] then c
    else Requests(Request(c, files[0], urls[0], provider(urls[0])), files[1..], urls[1..], provider)
  }

  /** `urls[i]` for each `files[i]` not in `disk`, in order. */
  function MissingUrls(disk: set<string>, files: seq<string>, urls: seq<string>): seq<string>
    requires |files| == |urls|
    decreases |files|
  {
    if files == [] then []
    else (if files[0] in disk then [] else [urls[0]]) + MissingUrls(disk, files[1..], urls[1..])
  }

  /** After the requests, the disk holds exactly what it held plus the
      requested files. */
  lemma {:induction false} RequestsKeys(c: Cache, files: seq<string>, urls: seq<string>, provider: string -> Bytes)
    requires |files| == |urls|
    ensures forall g :: g in Requests(c, files, urls, provider).disk <==> g in c.disk || g in files
    decreases |files|
  {
    if files != [] {
      var c' := Request(c, files[0], urls[0], provider(urls[0]));
      RequestsKeys(c', files[1..], urls[1..], provider);
      assert forall g :: g in files <==> g == files[0] || g in files[1..];
    }
  }

  /** No file already on disk is rewritten. */
  lemma {:induction false} RequestsKeepEntries(c: Cache, files: seq<string>, urls: seq<string>, provider: string -> Bytes)
    requires |files| == |urls|
    ensures forall g :: g in c.disk ==>
      (g in Requests(c, files, urls, provider).disk && Requests(c, files, urls, provider).disk[g] == c.disk[g])
    decreases |files|
  {
    if files != [] {
      var c' := Request(c, files[0], urls[0], provider(urls[0]));
      RequestsKeepEntries(c', files[1..], urls[1..], provider);
    }
  }

  /** A requested file that was missing holds what its URL serves. */
  lemma {:induction false} RequestsStore(c: Cache, files: seq<string>, urls: seq<string>, provider: string -> Bytes, i: nat)
    requires |files| == |urls| && Distinct(files)
    requires i < |files| && files[i] !in c.disk
    ensures files[i] in Requests(c, files, urls, provider).disk
    ensures Requests(c, files, urls, provider).disk[files[i]] == provider(urls[i])
    decreases |files|
  {
    var c' := Request(c, files[0], urls[0], provider(urls[0]));
    if i == 0 {
      RequestsKeepEntries(c', files[1..], urls[1..], provider);
    } else {
      assert files[i] != files[0];
      RequestsStore(c', files[1..], urls[1..], provider, i - 1);
    }
  }

  /** Adding a file none of `files` names does not change which are missing. */
  lemma {:induction false} MissingUrlsIgnore(disk: set<string>, x: string, files: seq<string>, urls: seq<string>)
    requires |files| == |urls| && x !in files
    ensures MissingUrls(disk + {x}, files, urls) == MissingUrls(disk, files, urls)
    decreases |files|
  {
    if files != [] {
      MissingUrlsIgnore(disk, x, files[1..], urls[1..]);
    }
  }

  /** Among distinct files, a URL is fetched exactly for each missing file, in
      order. */
  lemma {:induction false} RequestsFetched(c: Cache, files: seq<string>, urls: seq<string>, provider: string -> Bytes)
    requires |files| == |urls| && Distinct(files)
    ensures Requests(c, files, urls, provider).fetched == c.fetched + MissingUrls(c.disk.Keys, files, urls)
    decreases |files|
  {
    if files != [] {
      var c' := Request(c, files[0], urls[0], provider(urls[0]));
      var rest := MissingUrls(c.disk.Keys, files[1..], urls[1..]);
      DistinctTail(files);
      RequestsFetched(c', files[1..], urls[1..], provider);
      assert Requests(c, files, urls, provider) == Requests(c', files[1..], urls[1..], provider);
      if files[0] in c.disk {
        assert MissingUrls(c.disk.Keys, files, urls) == rest;
      } else {
        assert c'.disk.Keys == c.disk.Keys + {files[0]};
        MissingUrlsIgnore(c.disk.Keys, files[0], files[1..], urls[1..]);
        assert MissingUrls(c.disk.Keys, files, urls) == [urls[0]] + rest;
        assert c'.fetched + rest == c.fetched + ([urls[0]] + rest);
      }
    }
  }

  /** The rest of a list of distinct files is distinct and lacks the first. */
  lemma DistinctTail(files: seq<string>)
    requires files != [] && Distinct(files)
    ensures Distinct(files[1..]) && files[0] !in files[1..]
  {
    forall i, j | 0 <= i < j < |files[1..]| ensures files[1..][i] != files[1..][j] {
      assert files[1..][i] == files[i + 1] && files[1..][j] == files[j + 1];
    }
    forall k | 0 <= k < |files[1..]| ensures files[1..][k] != files[0] {
      assert files[1..][k] == files[k + 1];
    }
  }

  /** Requests for files all on disk change nothing. */
  lemma {:induction false} RequestsPresent(c: Cache, files: seq<string>, urls: seq<string>, provider: string -> Bytes)
    requires |files| == |urls|
    requires forall g :: g in files ==> g in c.disk
    ensures Requests(c, files, urls, provider) == c
    decreases |files|
  {
    if files != [] {
      assert files[0] in files;
      RequestsPresent(c, files[1..], urls[1..], provider);
    }
  }

  /** Requesting the same files a second time changes nothing: a later frame
      on the same tiles reads them from disk. */
  lemma RequestsIdempotent(c: Cache, files: seq<string>, urls: seq<string>, provider: string -> Bytes)
    requires |files| == |urls|
    ensures var c' := Requests(c, files, urls, provider); Requests(c', files, urls, provider) == c'
  {
    RequestsKeys(c, files, urls, provider);
    RequestsPresent(Requests(c, files, urls, provider), files, urls, provider);
  }

  /** `download_or_get` of tile `i` of the four: one step of `Requests`. */
  method CacheTile(store: TileStore, apiKey: string, cacheDir: string, p: TilePos, i: nat)
    returns (file: string)
    requires i < 4
    modifies store
    ensures file == TileFiles(cacheDir, p)[i]
    ensures var url := TileUrls(apiKey, p)[i];
      Cache(store.disk, store.fetched) == Request(Cache(old(store.disk), old(store.fetched)), file, url, store.provider(url))
  {
    var t := Tiles(p)[i];
    TileAt(cacheDir, apiKey, p, i);
    file := store.DownloadOrGet(apiKey, cacheDir, MAP_ZOOM, t.x, t.y);
  }

  /** `build_map_frame` for the record `gps`, with `solve` standing for
      `solve_tile(MAP_ZOOM, ...)`: the layout of the fix's tiles, after the
      four tiles were requested from the cache in order. */
  method BuildMapFrame(
    store: TileStore, apiKey: string, gps: GpsData, cacheDir: string,
    solve: (Coordinate, Coordinate) -> TilePos)
    returns (layout: Layout)
    modifies store
    ensures var p := solve(gps.latitude, gps.longitude);
      && layout == LayoutFor(cacheDir, p)
      && Cache(store.disk, store.fetched)
         == Requests(Cache(old(store.disk), old(store.fetched)), layout.files, TileUrls(apiKey, p), store.provider)
  {
    var p := solve(gps.latitude, gps.longitude);
    ghost var files, urls := TileFiles(cacheDir, p), TileUrls(apiKey, p);
    ghost var c0 := Cache(store.disk, store.fetched);
    var tileFile := CacheTile(store, apiKey, cacheDir, p, 0);
    var adjTileFile1 := CacheTile(store, apiKey, cacheDir, p, 1);
    var adjTileFile2 := CacheTile(store, apiKey, cacheDir, p, 2);
    var adjTileFile3 := CacheTile(store, apiKey, cacheDir, p, 3);
    layout := Layout([tileFile, adjTileFile1, adjTileFile2, adjTileFile3], Placements(p), MARKER);
    FourElements(files);
    RequestsFour(c0, files, urls, store.provider);
  }

  /** Four requests in a row, one per tile. */
  lemma RequestsFour(c: Cache, files: seq<string>, urls: seq<string>, provider: string -> Bytes)
    requires |files| == 4 && |urls| == 4
    ensures Requests(c, files, urls, provider)
      == Request(Request(Request(Request(c, files[0], urls[0], provider(urls[0])),
           files[1], urls[1], provider(urls[1])), files[2], urls[2], provider(urls[2])), files[3], urls[3], provider(urls[3]))
  {
    var c1 := Request(c, files[0], urls[0], provider(urls[0]));
    var c2 := Request(c1, files[1], urls[1], provider(urls[1]));
    var c3 := Request(c2, files[2], urls[2], provider(urls[2]));
    var c4 := Request(c3, files[3], urls[3], provider(urls[3]));
    assert files[1..][1..] == files[2..] && urls[1..][1..] == urls[2..];
    assert files[2..][1..] == files[3..] && urls[2..][1..] == urls[3..];
    assert files[3..][1..] == [] && urls[3..][1..] == [];
    assert Requests(c3, files[3..], urls[3..], provider) == c4;
    assert Requests(c2, files[2..], urls[2..], provider) == c4;
    assert Requests(c1, files[1..], urls[1..], provider) == c4;
  }

  lemma FourElements<T>(s: seq<T>)
    requires |s| == 4
    ensures s == [s[0], s[1], s[2], s[3]]
  {
  }

  /** What `BuildMapFrame` leaves in the cache: the four tiles on disk, a
      missing tile holding what its URL serves, old files untouched, and a
      fetch for exactly the missing tiles, in copy order. */
  lemma FrameCacheEffect(c: Cache, cacheDir: string, apiKey: string, p: TilePos, provider: string -> Bytes)
    requires ValidPos(p)
    ensures var files, urls := TileFiles(cacheDir, p), TileUrls(apiKey, p);
      var c' := Requests(c, files, urls, provider);
      && (forall g :: g in c'.disk <==> g in c.disk || g in files)
      && (forall g :: g in c.disk ==> c'.disk[g] == c.disk[g])
      && (forall i :: 0 <= i < 4 && files[i] !in c.disk ==> c'.disk[files[i]] == provider(urls[i]))
      && c'.fetched == c.fetched + MissingUrls(c.disk.Keys, files, urls)
  {
    var files, urls := TileFiles(cacheDir, p), TileUrls(apiKey, p);
    TileFilesDistinct(cacheDir, p);
    RequestsKeys(c, files, urls, provider);
    RequestsKeepEntries(c, files, urls, provider);
    forall i | 0 <= i < 4 && files[i] !in c.disk
      ensures Requests(c, files, urls, provider).disk[files[i]] == provider(urls[i])
    {
      RequestsStore(c, files, urls, provider, i);
    }
    RequestsFetched(c, files, urls, provider);
  }
}
