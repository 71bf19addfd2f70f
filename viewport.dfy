/** The integer geometry of `build_map_frame`: which three neighbours of the
    fix's tile are fetched, where the four 256x256 tiles are placed in the
    256x256 viewport, and where the 4x4 marker goes. */
module Viewport {

  const TILE_W := 256
  const TILE_H := 256
  const HALF_W := TILE_W / 2
  const HALF_H := TILE_H / 2
  const I16_MIN := -0x8000
  const I16_MAX := 0x7FFF

  /** The output of `solve_tile`: the tile holding the fix and the fix's pixel
      inside that tile. */
  datatype TilePos = TilePos(x: int, y: int, px: int, py: int)

  /** The pixel is inside the tile, and the tile and the neighbours that
      are fetched for it have indices representable as `i16`. */
  predicate ValidPos(p: TilePos)
  {
    && 0 <= p.px < TILE_W && 0 <= p.py < TILE_H
    && I16_MIN <= p.x <= I16_MAX && I16_MIN <= p.x + OffsetSign(p.px, HALF_W) <= I16_MAX
    && I16_MIN <= p.y <= I16_MAX && I16_MIN <= p.y + OffsetSign(p.py, HALF_H) <= I16_MAX
  }

  datatype TileXY = TileXY(x: int, y: int)

  /** An SDL rectangle: origin and size. */
  datatype Rect = Rect(x: int, y: int, w: nat, h: nat)

  predicate Contains(r: Rect, u: int, v: int)
  {
    r.x <= u < r.x + r.w && r.y <= v < r.y + r.h
  }

  /** `tile_offset_x` / `tile_offset_y`: towards the nearer tile edge. */
  function OffsetSign(pixel: int, half: int): (s: int)
    ensures s == -1 || s == 1
  {
    if pixel < half then -1 else 1
  }

  /** The four tiles fetched, in fetch order: the fix's tile, its horizontal
      neighbour, the diagonal one and its vertical neighbour. */
  function Tiles(p: TilePos): (ts: seq<TileXY>)
    ensures |ts| == 4 && ts[0] == TileXY(p.x, p.y)
    ensures forall i :: 0 <= i < 4 ==> p.x - 1 <= ts[i].x <= p.x + 1 && p.y - 1 <= ts[i].y <= p.y + 1
    ensures ts[1].y == ts[0].y && ts[3].x == ts[0].x && ts[2] == TileXY(ts[1].x, ts[3].y)
    ensures ts[1].x != p.x && ts[3].y != p.y
  {
    var ox, oy := OffsetSign(p.px, HALF_W), OffsetSign(p.py, HALF_H);
    [TileXY(p.x, p.y), TileXY(p.x + ox, p.y), TileXY(p.x + ox, p.y + oy), TileXY(p.x, p.y + oy)]
  }

  /** Where each of the four tiles is copied to, in the same order. */
  function Placements(p: TilePos): (rs: seq<Rect>)
    ensures |rs| == 4
    ensures forall i :: 0 <= i < 4 ==> rs[i].w == TILE_W && rs[i].h == TILE_H
    ensures rs[1].y == rs[0].y && rs[3].x == rs[0].x && rs[2] == Rect(rs[1].x, rs[3].y, TILE_W, TILE_H)
    ensures (rs[1].x - rs[0].x == TILE_W || rs[0].x - rs[1].x == TILE_W)
    ensures (rs[3].y - rs[0].y == TILE_H || rs[0].y - rs[3].y == TILE_H)
  {
    var xOffset, yOffset := HALF_W - p.px, HALF_H - p.py;
    var xOffset1 := xOffset + TILE_W * OffsetSign(p.px, HALF_W);
    var yOffset1 := yOffset + TILE_H * OffsetSign(p.py, HALF_H);
    [ Rect(xOffset, yOffset, TILE_W, TILE_H), Rect(xOffset1, yOffset, TILE_W, TILE_H),
      Rect(xOffset1, yOffset1, TILE_W, TILE_H), Rect(xOffset, yOffset1, TILE_W, TILE_H)]
  }

  /** The red fix marker. */
  const MARKER := Rect(HALF_W - 2, HALF_H - 2, 4, 4)

  /** The viewport itself. */
  const VIEW := Rect(0, 0, TILE_W, TILE_H)

  /** The neighbour offsets point to the half of the tile the fix is in, and
      the neighbour tiles are the fix's tile shifted by exactly those
      offsets, without wrap-around. */
  lemma NeighbourChoice(p: TilePos)
    requires ValidPos(p)
    ensures Tiles(p)[1].x - p.x == -1 <==> p.px < HALF_W
    ensures Tiles(p)[1].x - p.x == 1 <==> p.px >= HALF_W
    ensures Tiles(p)[3].y - p.y == -1 <==> p.py < HALF_H
    ensures Tiles(p)[3].y - p.y == 1 <==> p.py >= HALF_H
    ensures Tiles(p)[0] == TileXY(p.x, p.y)
    ensures Tiles(p)[1] == TileXY(Tiles(p)[2].x, p.y) && Tiles(p)[3] == TileXY(p.x, Tiles(p)[2].y)
    ensures forall i, j :: 0 <= i < j < 4 ==> Tiles(p)[i] != Tiles(p)[j]
    ensures forall i :: 0 <= i < 4 ==> I16_MIN <= Tiles(p)[i].x <= I16_MAX && I16_MIN <= Tiles(p)[i].y <= I16_MAX
  {
  }

  /** The four tiles are the ones the 256x256 window centred on the fix
      overlaps: every map pixel within half a tile of the fix, in map pixel
      coordinates, lies in one of them. */
  lemma WindowInTiles(p: TilePos, gx: int, gy: int)
    requires ValidPos(p)
    requires var fx, fy := TILE_W * p.x + p.px, TILE_H * p.y + p.py;
      fx - HALF_W <= gx < fx + HALF_W && fy - HALF_H <= gy < fy + HALF_H
    ensures TileXY(gx / TILE_W, gy / TILE_H) in Tiles(p)
  {
    var tx, ty := gx / TILE_W, gy / TILE_H;
    assert p.x - 1 <= tx <= p.x + 1 && p.y - 1 <= ty <= p.y + 1;
    assert tx != p.x ==> tx == Tiles(p)[1].x;
    assert ty != p.y ==> ty == Tiles(p)[3].y;
    if tx == p.x && ty == p.y {
      assert TileXY(tx, ty) == Tiles(p)[0];
    } else if ty == p.y {
      assert TileXY(tx, ty) == Tiles(p)[1];
    } else if tx == p.x {
      assert TileXY(tx, ty) == Tiles(p)[3];
    } else {
      assert TileXY(tx, ty) == Tiles(p)[2];
    }
  }

  /** Each tile is placed so that one translation maps map pixels to viewport
      pixels for all four: tile `t` starts at `256 * (t - tile) + 128 - px`. */
  lemma PlacementsStitch(p: TilePos)
    requires ValidPos(p)
    ensures forall i :: 0 <= i < 4 ==>
      && Placements(p)[i].x == TILE_W * (Tiles(p)[i].x - p.x) + HALF_W - p.px
      && Placements(p)[i].y == TILE_H * (Tiles(p)[i].y - p.y) + HALF_H - p.py
      && Placements(p)[i].w == TILE_W && Placements(p)[i].h == TILE_H
  {
  }

  /** The fix's pixel of the centre tile lands at the viewport centre, which
      the marker covers, centred. */
  lemma FixAtCentre(p: TilePos)
    requires ValidPos(p)
    ensures Placements(p)[0].x + p.px == HALF_W && Placements(p)[0].y + p.py == HALF_H
    ensures Contains(Placements(p)[0], HALF_W, HALF_H)
    ensures Contains(MARKER, HALF_W, HALF_H) && Contains(VIEW, HALF_W, HALF_H)
    ensures MARKER.x + MARKER.w / 2 == HALF_W && MARKER.y + MARKER.h / 2 == HALF_H
  {
  }

  /** The four tiles cover the whole viewport, each pixel exactly once: no
      pixel is left black and no copy overwrites a visible pixel of an
      earlier one. */
  lemma ViewportCovered(p: TilePos, u: int, v: int)
    requires ValidPos(p)
    requires Contains(VIEW, u, v)
    ensures exists i :: 0 <= i < 4 && Contains(Placements(p)[i], u, v)
    ensures forall i, j :: 0 <= i < 4 && 0 <= j < 4 && Contains(Placements(p)[i], u, v) && Contains(Placements(p)[j], u, v) ==> i == j
  {
    var rs := Placements(p);
    var inX := rs[0].x <= u < rs[0].x + TILE_W;
    var inY := rs[0].y <= v < rs[0].y + TILE_H;
    var i := if inX && inY then 0 else if inY then 1 else if inX then 3 else 2;
    assert Contains(rs[i], u, v);
  }
}
