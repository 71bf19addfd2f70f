/** `download_or_get`: the on-disk tile cache. The disk is a map from file
    path to contents; the tile provider is a function from URL to the bytes
    it serves, and every fetch is recorded. */
module TileCache {
  import opened Text

  type Byte = b: int | 0 <= b < 256
  type Bytes = seq<Byte>

  const BASE_URL := "https://maps.geoapify.com/v1/"
  const MAP_ZOOM := 15

  /** `{cache_dir}/{zoom}/{x}/{y}.webp` */
  function TilePath(cacheDir: string, zoom: nat, x: int, y: int): (p: string)
    ensures |p| > |cacheDir| + 5 && p[..|cacheDir| + 1] == cacheDir + "/"
    ensures p[|p| - 5..] == ".webp"
  {
    var name := NatToString(zoom) + "/" + IntToString(x) + "/" + IntToString(y);
    ConcatEnds(cacheDir + "/", name, ".webp");
    cacheDir + "/" + TileName(zoom, x, y, ".webp")
  }

  /** `{BASE_URL}tile/osm-carto/{zoom}/{x}/{y}.png?apiKey={key}` */
  function TileUrl(apiKey: string, zoom: nat, x: int, y: int): (u: string)
    ensures |u| > |BASE_URL| + 15 + 12 + |apiKey| && u[..|BASE_URL| + 15] == BASE_URL + "tile/osm-carto/"
    ensures u[|u| - 12 - |apiKey|..] == ".png?apiKey=" + apiKey
  {
    var name := NatToString(zoom) + "/" + IntToString(x) + "/" + IntToString(y);
    ConcatEnds(BASE_URL + "tile/osm-carto/", name, ".png?apiKey=" + apiKey);
    BASE_URL + "tile/osm-carto/" + TileName(zoom, x, y, ".png?apiKey=" + apiKey)
  }

  /** `{zoom}/{x}/{y}` followed by `suffix`. */
  function TileName(zoom: nat, x: int, y: int, suffix: string): string
  {
    NatToString(zoom) + "/" + IntToString(x) + "/" + IntToString(y) + suffix
  }

  /** Tile names that end in a suffix starting with `.` determine the tile
      and the suffix. */
  lemma TileNameInjective(z1: nat, x1: int, y1: int, s1: string, z2: nat, x2: int, y2: int, s2: string)
    requires |s1| > 0 && s1[0] == '.' && |s2| > 0 && s2[0] == '.'
    requires TileName(z1, x1, y1, s1) == TileName(z2, x2, y2, s2)
    ensures z1 == z2 && x1 == x2 && y1 == y2 && s1 == s2
  {
    var zs1, xs1, ys1 := NatToString(z1), IntToString(x1), IntToString(y1);
    var zs2, xs2, ys2 := NatToString(z2), IntToString(x2), IntToString(y2);
    TileNameParts(z1, x1, y1, s1);
    TileNameParts(z2, x2, y2, s2);
    SplitAt(zs1, xs1 + ['/'] + (ys1 + ['.'] + s1[1..]), zs2, xs2 + ['/'] + (ys2 + ['.'] + s2[1..]), '/');
    SplitAt(xs1, ys1 + ['.'] + s1[1..], xs2, ys2 + ['.'] + s2[1..], '/');
    SplitAt(ys1, s1[1..], ys2, s2[1..], '.');
    IntToStringInjective(x1, x2);
    IntToStringInjective(y1, y2);
  }

  /** A tile name as its three numbers, separated by `/`, then the suffix;
      no number contains `/` or `.`. */
  lemma TileNameParts(z: nat, x: int, y: int, s: string)
    requires |s| > 0 && s[0] == '.'
    ensures var zs, xs, ys := NatToString(z), IntToString(x), IntToString(y);
      && TileName(z, x, y, s) == zs + ['/'] + (xs + ['/'] + (ys + ['.'] + s[1..]))
      && '/' !in zs && '/' !in xs && '.' !in ys
      && Decimal(zs) == z
  {
    var zs, xs, ys := NatToString(z), IntToString(x), IntToString(y);
    assert s == ['.'] + s[1..];
    assert forall k :: 0 <= k < |zs| ==> IsDigit(zs[k]);
  }

  /** In one cache directory, distinct tiles have distinct files. */
  lemma TilePathInjective(cacheDir: string, z1: nat, x1: int, y1: int, z2: nat, x2: int, y2: int)
    requires TilePath(cacheDir, z1, x1, y1) == TilePath(cacheDir, z2, x2, y2)
    ensures z1 == z2 && x1 == x2 && y1 == y2
  {
    var n := |cacheDir| + 1;
    assert TilePath(cacheDir, z1, x1, y1)[n..] == TileName(z1, x1, y1, ".webp");
    assert TilePath(cacheDir, z2, x2, y2)[n..] == TileName(z2, x2, y2, ".webp");
    TileNameInjective(z1, x1, y1, ".webp", z2, x2, y2, ".webp");
  }

  /** Distinct tiles, or distinct keys, are fetched from distinct URLs. */
  lemma TileUrlInjective(k1: string, z1: nat, x1: int, y1: int, k2: string, z2: nat, x2: int, y2: int)
    requires TileUrl(k1, z1, x1, y1) == TileUrl(k2, z2, x2, y2)
    ensures z1 == z2 && x1 == x2 && y1 == y2 && k1 == k2
  {
    var n := |BASE_URL + "tile/osm-carto/"|;
    var s1, s2 := ".png?apiKey=" + k1, ".png?apiKey=" + k2;
    assert TileUrl(k1, z1, x1, y1)[n..] == TileName(z1, x1, y1, s1);
    assert TileUrl(k2, z2, x2, y2)[n..] == TileName(z2, x2, y2, s2);
    TileNameInjective(z1, x1, y1, s1, z2, x2, y2, s2);
    assert k1 == s1[12..] && k2 == s2[12..];
  }

  /** The cache directory on disk, together with the remote tile provider. */
  class TileStore {
    /** Every file on disk, by path. */
    var disk: map<string, Bytes>
    /** The URLs fetched so far, in order. */
    var fetched: seq<string>
    /** What the provider serves for each URL. */
    const provider: string -> Bytes

    constructor (disk0: map<string, Bytes>, provider: string -> Bytes)
      ensures disk == disk0 && fetched == [] && this.provider == provider
    {
      disk := disk0;
      fetched := [];
      this.provider := provider;
    }

    /** The blocking download of one URL. */
    method Fetch(url: string) returns (bytes: Bytes)
      modifies this`fetched
      ensures bytes == provider(url)
      ensures fetched == old(fetched) + [url]
    {
      fetched := fetched + [url];
      bytes := provider(url);
    }

    /** `download_or_get`: the tile's cache path, after fetching and storing
        the tile if and only if that path was not on disk. */
    method DownloadOrGet(apiKey: string, cacheDir: string, zoom: nat, x: int, y: int) returns (path: string)
      modifies this
      ensures path == TilePath(cacheDir, zoom, x, y)
      ensures path in disk
      ensures old(path in disk) ==> disk == old(disk) && fetched == old(fetched)
      ensures old(path !in disk) ==>
        && disk == old(disk)[path := provider(TileUrl(apiKey, zoom, x, y))]
        && fetched == old(fetched) + [TileUrl(apiKey, zoom, x, y)]
    {
      path := TilePath(cacheDir, zoom, x, y);
      var fileExists := path in disk;
      if !fileExists {
        var url := TileUrl(apiKey, zoom, x, y);
        var bytes := Fetch(url);
        disk := disk[path := bytes];
      }
    }
  }

  /** A second request for the same tile fetches nothing and sees the same
      file as the first. */
  method RequestTwice(store: TileStore, apiKey: string, cacheDir: string, zoom: nat, x: int, y: int)
    returns (first: string, second: string)
    modifies store
    ensures first == second == TilePath(cacheDir, zoom, x, y)
    ensures |store.fetched| <= |old(store.fetched)| + 1
    ensures old(first in store.disk) ==> store.fetched == old(store.fetched) && store.disk == old(store.disk)
    ensures old(first !in store.disk) ==>
      && store.fetched == old(store.fetched) + [TileUrl(apiKey, zoom, x, y)]
      && store.disk == old(store.disk)[first := store.provider(TileUrl(apiKey, zoom, x, y))]
    ensures forall p :: p in old(store.disk) ==> p in store.disk && store.disk[p] == old(store.disk)[p]
  {
    first := store.DownloadOrGet(apiKey, cacheDir, zoom, x, y);
    ghost var afterFirst := store.disk;
    ghost var fetchesAfterFirst := store.fetched;
    second := store.DownloadOrGet(apiKey, cacheDir, zoom, x, y);
    assert store.disk == afterFirst && store.fetched == fetchesAfterFirst;
  }
}
