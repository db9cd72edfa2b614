/**
 * The end of `main` (lines 92-114): the grid extent of the tile
 * coordinates, a canvas of that many tiles filled with the background
 * colour, and one paste per tile at its offset from the top-left corner.
 */
module Mosaic {
  import opened Wrappers
  import opened Raster
  import opened TileIds

  /** A completed tile and its grid coordinate, in the order the tiles were first seen. */
  datatype Placement = Placement(tile: Picture, at: Coord)

  /** Python's `min` of a non-empty sequence. */
  function MinOf(s: seq<int>): (m: int)
    requires |s| > 0
    ensures m in s
    ensures forall i | 0 <= i < |s| :: m <= s[i]
  {
    if |s| == 1 then s[0]
    else
      var rest := MinOf(s[1..]);
      assert rest in s by { assert s == [s[0]] + s[1..]; }
      if s[0] <= rest then s[0] else rest
  }

  /** Python's `max` of a non-empty sequence. */
  function MaxOf(s: seq<int>): (m: int)
    requires |s| > 0
    ensures m in s
    ensures forall i | 0 <= i < |s| :: s[i] <= m
  {
    if |s| == 1 then s[0]
    else
      var rest := MaxOf(s[1..]);
      assert rest in s by { assert s == [s[0]] + s[1..]; }
      if s[0] >= rest then s[0] else rest
  }

  /** The smallest and largest column and row of the tile coordinates. */
  datatype Extent = Extent(minX: int, maxX: int, minY: int, maxY: int)

  /** The column of each coordinate, in order (`x for x, y in coords`). */
  function Columns(cs: seq<Coord>): (r: seq<int>)
    ensures |r| == |cs| && forall i | 0 <= i < |cs| :: r[i] == cs[i].x
  {
    seq(|cs|, i requires 0 <= i < |cs| => cs[i].x)
  }

  /** The row of each coordinate, in order. */
  function Rows(cs: seq<Coord>): (r: seq<int>)
    ensures |r| == |cs| && forall i | 0 <= i < |cs| :: r[i] == cs[i].y
  {
    seq(|cs|, i requires 0 <= i < |cs| => cs[i].y)
  }

  /**
   * Lines 93-96; with no coordinate at all Python's `min` raises, here
   * `None`.  Each bound is the column or row of some tile.
   */
  function ExtentOf(cs: seq<Coord>): (r: Option<Extent>)
    ensures r.Some? <==> |cs| > 0
    ensures r.Some? ==> r.value.minX <= r.value.maxX && r.value.minY <= r.value.maxY
    ensures r.Some? ==> forall i | 0 <= i < |cs| ::
      r.value.minX <= cs[i].x <= r.value.maxX && r.value.minY <= cs[i].y <= r.value.maxY
    ensures r.Some? ==> r.value.minX in Columns(cs) && r.value.maxX in Columns(cs)
    ensures r.Some? ==> r.value.minY in Rows(cs) && r.value.maxY in Rows(cs)
  {
    if |cs| == 0 then None
    else
      var xs, ys := Columns(cs), Rows(cs);
      Some(Extent(MinOf(xs), MaxOf(xs), MinOf(ys), MaxOf(ys)))
  }

  /** Like Python's `min` and `max`, every bound of the extent is the column or row of an actual tile. */
  lemma ExtentBoundsAttained(cs: seq<Coord>)
    requires |cs| > 0
    ensures var e := ExtentOf(cs).value;
      && (exists i | 0 <= i < |cs| :: cs[i].x == e.minX)
      && (exists i | 0 <= i < |cs| :: cs[i].x == e.maxX)
      && (exists i | 0 <= i < |cs| :: cs[i].y == e.minY)
      && (exists i | 0 <= i < |cs| :: cs[i].y == e.maxY)
  {
    var e := ExtentOf(cs).value;
    var xs, ys := Columns(cs), Rows(cs);
    var a :| 0 <= a < |xs| && xs[a] == e.minX;
    var b :| 0 <= b < |xs| && xs[b] == e.maxX;
    var c :| 0 <= c < |ys| && ys[c] == e.minY;
    var d :| 0 <= d < |ys| && ys[d] == e.maxY;
    assert cs[a].x == e.minX && cs[b].x == e.maxX && cs[c].y == e.minY && cs[d].y == e.maxY;
  }

  function Coords(ps: seq<Placement>): (r: seq<Coord>)
    ensures |r| == |ps| && forall i | 0 <= i < |ps| :: r[i] == ps[i].at
  {
    seq(|ps|, i requires 0 <= i < |ps| => ps[i].at)
  }

  /**
   * Line 114: where a tile of coordinate c lands, c - lo tiles of `size`
   * pixels from the edge.  The smallest coordinate lands on the edge and
   * no coordinate at or past it lands before the edge.
   */
  function Offset(c: int, lo: int, size: nat): (o: int)
    ensures c == lo ==> o == 0
    ensures lo <= c ==> o >= 0
  {
    (c - lo) * size
  }

  /** Tiles of neighbouring columns (or rows) touch: the next one starts where this one ends. */
  lemma NeighboursAbut(c: int, lo: int, size: nat)
    ensures Offset(c + 1, lo, size) == Offset(c, lo, size) + size
  {
    assert (c + 1 - lo) * size == (c - lo) * size + size;
  }

  /** The paste of line 114 for each placement: tile (x, y) at ((x - min_x) * tw, (y - min_y) * th). */
  function MosaicLayers(ps: seq<Placement>, e: Extent, tw: nat, th: nat): (ls: seq<Layer>)
    ensures |ls| == |ps|
    ensures forall i | 0 <= i < |ps| :: ls[i] == Layer(ps[i].tile, Offset(ps[i].at.x, e.minX, tw), Offset(ps[i].at.y, e.minY, th))
  {
    seq(|ps|, i requires 0 <= i < |ps| => Layer(ps[i].tile, Offset(ps[i].at.x, e.minX, tw), Offset(ps[i].at.y, e.minY, th)))
  }

  /**
   * `(hi - lo) * size`: the pixel length of `hi - lo` tiles of `size`
   * pixels, which is exactly where a tile of coordinate `hi` would start.
   */
  function Span(lo: int, hi: int, size: nat): (n: nat)
    requires lo <= hi
    ensures n == (hi - lo) * size
    ensures n == Offset(hi, lo, size)
  {
    var k: nat := hi - lo;
    k * size
  }

  ghost predicate AllTilesValid(ps: seq<Placement>)
  {
    forall i | 0 <= i < |ps| :: ps[i].tile.Valid()
  }

  /**
   * The final image of lines 98-114: `(max_x - min_x) * tile_width` by
   * `(max_y - min_y) * tile_height`, the tile size being the first tile's,
   * filled with `bg` and with every tile pasted in order.  `None` when
   * there is no tile.
   */
  function MosaicOf(ps: seq<Placement>, bg: Pixel): (r: Option<Picture>)
    requires AllTilesValid(ps)
    ensures r.Some? <==> |ps| > 0
    ensures r.Some? ==> r.value.Valid()
  {
    match ExtentOf(Coords(ps))
    case None => None
    case Some(e) =>
      var tw, th := ps[0].tile.width, ps[0].tile.height;
      var ls := MosaicLayers(ps, e, tw, th);
      assert AllValid(ls);
      Some(Render(ls, bg, Span(e.minX, e.maxX, tw), Span(e.minY, e.maxY, th)))
  }

  /** The tiles of `order` with their coordinates, as the loop of lines 108-114 visits them. */
  function Placements(order: seq<string>, tiles: map<string, Picture>, coords: map<string, Coord>): (ps: seq<Placement>)
    requires forall id | id in order :: id in tiles && id in coords
    ensures |ps| == |order|
    ensures forall i | 0 <= i < |order| :: ps[i] == Placement(tiles[order[i]], coords[order[i]])
  {
    seq(|order|, i requires 0 <= i < |order| => Placement(tiles[order[i]], coords[order[i]]))
  }

  /**
   * Lines 92-114: the extent, the background canvas and the paste of every
   * tile in `order`; `None` where Python's `min` would raise on no tile.
   */
  method ComposeMosaic(order: seq<string>, tiles: map<string, array2<Pixel>>, coords: map<string, Coord>, bg: Pixel)
    returns (r: Option<array2<Pixel>>)
    requires forall id | id in order :: id in tiles && id in coords
    ensures r.Some? <==> |order| > 0
    ensures r.Some? ==> fresh(r.value) && Snap(r.value) == MosaicOf(Placements(order, old(SnapAll(tiles)), coords), bg).value
  {
    if |order| == 0 {
      return None;
    }
    ghost var ps := Placements(order, SnapAll(tiles), coords);
    var cs := seq(|order|, i requires 0 <= i < |order| => coords[order[i]]);
    assert cs == Coords(ps);
    var e := ExtentOf(cs).value;
    var first := tiles[order[0]];
    var tw, th := first.Length0, first.Length1;
    var canvas := NewImage(Span(e.minX, e.maxX, tw), Span(e.minY, e.maxY, th), bg);
    assert SnapAll(tiles) == old(SnapAll(tiles));
    RenderNothing(bg, canvas.Length0, canvas.Length1);
    PasteTiles(canvas, order, tiles, coords, e, tw, th, bg);
    MosaicUnfold(ps, e, bg);
    return Some(canvas);
  }

  /** `MosaicOf` once the extent is known. */
  lemma MosaicUnfold(ps: seq<Placement>, e: Extent, bg: Pixel)
    requires AllTilesValid(ps) && ExtentOf(Coords(ps)) == Some(e)
    ensures var tw, th := ps[0].tile.width, ps[0].tile.height;
      MosaicOf(ps, bg) == Some(Render(MosaicLayers(ps, e, tw, th), bg, Span(e.minX, e.maxX, tw), Span(e.minY, e.maxY, th)))
  {
  }

  /**
   * The final image is `max_x - min_x` first-tile widths wide and
   * `max_y - min_y` first-tile heights tall, with no + 1, and each of its
   * pixels shows the last tile pasted over it, else the background.
   */
  lemma MosaicOfExtent(ps: seq<Placement>, e: Extent, bg: Pixel)
    requires AllTilesValid(ps) && ExtentOf(Coords(ps)) == Some(e)
    ensures MosaicOf(ps, bg).Some?
    ensures MosaicOf(ps, bg).value.width == (e.maxX - e.minX) * ps[0].tile.width
    ensures MosaicOf(ps, bg).value.height == (e.maxY - e.minY) * ps[0].tile.height
    ensures var ls := MosaicLayers(ps, e, ps[0].tile.width, ps[0].tile.height);
      AllValid(ls) && forall x, y | MosaicOf(ps, bg).value.InBounds(x, y) ::
        MosaicOf(ps, bg).value.At(x, y) == Composite(ls, bg, x, y)
  {
    var m := MosaicRender(ps, e, bg);
    MosaicSize(ps, e, bg);
  }

  /** The canvas sides of `MosaicOf` as the products of lines 105-106. */
  lemma MosaicSize(ps: seq<Placement>, e: Extent, bg: Pixel)
    requires AllTilesValid(ps) && ExtentOf(Coords(ps)) == Some(e)
    ensures MosaicOf(ps, bg).Some?
    ensures MosaicOf(ps, bg).value.width == (e.maxX - e.minX) * ps[0].tile.width
    ensures MosaicOf(ps, bg).value.height == (e.maxY - e.minY) * ps[0].tile.height
  {
    var w, h := MosaicSpans(ps, e, bg);
    SpanProduct(MosaicOf(ps, bg).value, e, ps[0].tile.width, ps[0].tile.height);
  }

  /** The canvas sides of `MosaicOf` as `Span`s of the extent. */
  lemma MosaicSpans(ps: seq<Placement>, e: Extent, bg: Pixel) returns (w: nat, h: nat)
    requires AllTilesValid(ps) && ExtentOf(Coords(ps)) == Some(e)
    ensures MosaicOf(ps, bg).Some? && MosaicOf(ps, bg).value.width == w && MosaicOf(ps, bg).value.height == h
    ensures e.minX <= e.maxX && e.minY <= e.maxY
    ensures w == Span(e.minX, e.maxX, ps[0].tile.width) && h == Span(e.minY, e.maxY, ps[0].tile.height)
  {
    var m := MosaicRender(ps, e, bg);
    w, h := m.width, m.height;
  }

  /** A picture whose sides are `Span`s of the extent has the product sides of lines 105-106. */
  lemma SpanProduct(m: Picture, e: Extent, tw: nat, th: nat)
    requires e.minX <= e.maxX && e.minY <= e.maxY
    requires m.width == Span(e.minX, e.maxX, tw) && m.height == Span(e.minY, e.maxY, th)
    ensures m.width == (e.maxX - e.minX) * tw && m.height == (e.maxY - e.minY) * th
  {
  }

  /** The final image as a `Render` of the tile pastes over the background. */
  lemma MosaicRender(ps: seq<Placement>, e: Extent, bg: Pixel) returns (m: Picture)
    requires AllTilesValid(ps) && ExtentOf(Coords(ps)) == Some(e)
    ensures var ls := MosaicLayers(ps, e, ps[0].tile.width, ps[0].tile.height);
      AllValid(ls) && MosaicOf(ps, bg) == Some(m) &&
      m == Render(ls, bg, Span(e.minX, e.maxX, ps[0].tile.width), Span(e.minY, e.maxY, ps[0].tile.height))
  {
    var tw, th := ps[0].tile.width, ps[0].tile.height;
    assert AllValid(MosaicLayers(ps, e, tw, th));
    MosaicUnfold(ps, e, bg);
    m := MosaicOf(ps, bg).value;
  }

  /** The loop of lines 108-114: every tile of `order` pasted in turn at its offset. */
  method PasteTiles(canvas: array2<Pixel>, order: seq<string>, tiles: map<string, array2<Pixel>>,
                    coords: map<string, Coord>, e: Extent, tw: nat, th: nat, ghost bg: Pixel)
    requires forall id | id in order :: id in tiles && id in coords
    requires canvas !in tiles.Values
    requires AllTilesValid(Placements(order, SnapAll(tiles), coords))
    requires Snap(canvas) == Render([], bg, canvas.Length0, canvas.Length1)
    modifies canvas
    ensures Snap(canvas) == Render(MosaicLayers(Placements(order, SnapAll(tiles), coords), e, tw, th),
                                   bg, canvas.Length0, canvas.Length1)
    ensures SnapAll(tiles) == old(SnapAll(tiles))
  {
    ghost var pics := SnapAll(tiles);
    ghost var ps := Placements(order, pics, coords);
    ghost var ls := MosaicLayers(ps, e, tw, th);
    assert AllValid(ls);
    assert ls[..0] == [];
    for i := 0 to |order|
      invariant SnapAll(tiles) == pics
      invariant Snap(canvas) == Render(ls[..i], bg, canvas.Length0, canvas.Length1)
    {
      var id := order[i];
      assert ps[i] == Placement(pics[id], coords[id]);
      assert Snap(tiles[id]) == pics[id];
      PasteLayer(canvas, tiles[id], Offset(coords[id].x, e.minX, tw), Offset(coords[id].y, e.minY, th), ls, i, bg);
    }
    assert ls[..|order|] == ls;
  }

  /** All tiles have the first tile's size, the size the mosaic is laid out with. */
  ghost predicate SameSizeTiles(ps: seq<Placement>)
  {
    forall i | 0 <= i < |ps| :: ps[i].tile.Valid() && ps[i].tile.width == ps[0].tile.width && ps[i].tile.height == ps[0].tile.height
  }

  /** No two tiles share a grid coordinate. */
  ghost predicate DistinctCoords(ps: seq<Placement>)
  {
    forall i, j | 0 <= i < j < |ps| :: ps[i].at != ps[j].at
  }

  /** The pastes `MosaicOf` makes for non-empty `ps`. */
  function LayersOf(ps: seq<Placement>): seq<Layer>
    requires |ps| > 0
  {
    MosaicLayers(ps, ExtentOf(Coords(ps)).value, ps[0].tile.width, ps[0].tile.height)
  }

  lemma MulMonotone(a: int, b: int, t: nat)
    requires a <= b
    ensures a * t <= b * t
  {
    var d: nat := b - a;
    assert b * t == a * t + d * t;
  }

  /** A coordinate at or past `lo` lands at a non-negative offset. */
  lemma OffsetNonNegative(c: int, lo: int, size: nat)
    requires lo <= c
    ensures Offset(c, lo, size) >= 0
  {
    MulMonotone(0, c - lo, size);
  }

  /** A coordinate before `hi` lands a whole tile before the far edge. */
  lemma OffsetFits(c: int, lo: int, hi: int, size: nat)
    requires lo <= c < hi
    ensures Offset(c, lo, size) + size <= Span(lo, hi, size)
  {
    MulMonotone(c - lo + 1, hi - lo, size);
  }

  /** Pastes `size` wide at the offsets of coordinates a and b that share a pixel p come from one coordinate. */
  lemma SameCell(a: int, b: int, lo: int, size: nat, p: int)
    requires Offset(a, lo, size) <= p < Offset(a, lo, size) + size
    requires Offset(b, lo, size) <= p < Offset(b, lo, size) + size
    ensures a == b
  {
    if a < b {
      MulMonotone(a - lo + 1, b - lo, size);
    } else if b < a {
      MulMonotone(b - lo + 1, a - lo, size);
    }
  }

  /** Every paste offset of line 114 is non-negative: no tile is pasted partly off the top or left edge. */
  lemma OffsetsNonNegative(ps: seq<Placement>, i: int)
    requires 0 <= i < |ps|
    ensures LayersOf(ps)[i].x >= 0 && LayersOf(ps)[i].y >= 0
  {
    var e := ExtentOf(Coords(ps)).value;
    assert Coords(ps)[i] == ps[i].at;
    OffsetNonNegative(ps[i].at.x, e.minX, ps[0].tile.width);
    OffsetNonNegative(ps[i].at.y, e.minY, ps[0].tile.height);
  }

  /** With tiles of one size at distinct coordinates, no two pastes overlap. */
  lemma DisjointPlacement(ps: seq<Placement>)
    requires |ps| > 0 && SameSizeTiles(ps) && DistinctCoords(ps)
    ensures PairwiseDisjoint(LayersOf(ps))
  {
    var ls := LayersOf(ps);
    var e := ExtentOf(Coords(ps)).value;
    var tw, th := ps[0].tile.width, ps[0].tile.height;
    forall i, j, x, y | 0 <= i < |ls| && 0 <= j < |ls| && i != j && ls[i].Covers(x, y)
      ensures !ls[j].Covers(x, y)
    {
      if ls[j].Covers(x, y) {
        SameCell(ps[i].at.x, ps[j].at.x, e.minX, tw, x);
        SameCell(ps[i].at.y, ps[j].at.y, e.minY, th, y);
        assert false;
      }
    }
  }

  /** The final image is `MosaicOf` rendered from `LayersOf`. */
  lemma MosaicRendersLayers(ps: seq<Placement>, bg: Pixel)
    requires |ps| > 0 && AllTilesValid(ps)
    ensures AllValid(LayersOf(ps))
    ensures var e := ExtentOf(Coords(ps)).value;
      MosaicOf(ps, bg).value == Render(LayersOf(ps), bg,
        Span(e.minX, e.maxX, ps[0].tile.width), Span(e.minY, e.maxY, ps[0].tile.height))
  {
    MosaicUnfold(ps, ExtentOf(Coords(ps)).value, bg);
  }

  /**
   * With tiles of one size at distinct coordinates, a pixel of the final
   * image that a tile's paste reaches shows that tile, whatever was pasted
   * before or after it.
   */
  lemma MosaicShowsCoveringTile(ps: seq<Placement>, bg: Pixel, i: int, x: int, y: int)
    requires |ps| > 0 && SameSizeTiles(ps) && DistinctCoords(ps) && 0 <= i < |ps|
    requires MosaicOf(ps, bg).value.InBounds(x, y) && LayersOf(ps)[i].Covers(x, y)
    ensures MosaicOf(ps, bg).value.At(x, y) == LayersOf(ps)[i].PixelAt(x, y)
    ensures MosaicOf(ps, bg).value.At(x, y) == ps[i].tile.At(x - LayersOf(ps)[i].x, y - LayersOf(ps)[i].y)
  {
    var ls := LayersOf(ps);
    var e := ExtentOf(Coords(ps)).value;
    var w, h := Span(e.minX, e.maxX, ps[0].tile.width), Span(e.minY, e.maxY, ps[0].tile.height);
    assert AllValid(ls) && MosaicOf(ps, bg).value == Render(ls, bg, w, h) by {
      MosaicRendersLayers(ps, bg);
    }
    assert Composite(ls, bg, x, y) == ls[i].PixelAt(x, y) by {
      DisjointPlacement(ps);
      CompositeOfDisjoint(ls, bg, x, y, i);
    }
  }

  /** A pixel of the final image that no tile's paste reaches keeps the background colour. */
  lemma MosaicBackground(ps: seq<Placement>, bg: Pixel, x: int, y: int)
    requires |ps| > 0 && AllTilesValid(ps) && MosaicOf(ps, bg).value.InBounds(x, y)
    requires forall i | 0 <= i < |ps| :: !LayersOf(ps)[i].Covers(x, y)
    ensures MosaicOf(ps, bg).value.At(x, y) == bg
  {
    MosaicRendersLayers(ps, bg);
    CompositeUncovered(LayersOf(ps), bg, x, y);
  }

  lemma MinOfSameElements(s: seq<int>, t: seq<int>)
    requires |s| > 0 && |t| > 0 && forall v :: v in s <==> v in t
    ensures MinOf(s) == MinOf(t)
  {
  }

  lemma MaxOfSameElements(s: seq<int>, t: seq<int>)
    requires |s| > 0 && |t| > 0 && forall v :: v in s <==> v in t
    ensures MaxOf(s) == MaxOf(t)
  {
  }

  lemma ColumnsAndRowsOfSameElements(cs: seq<Coord>, ds: seq<Coord>)
    requires forall c :: c in cs <==> c in ds
    ensures forall v :: v in Columns(cs) <==> v in Columns(ds)
    ensures forall v :: v in Rows(cs) <==> v in Rows(ds)
  {
    forall v | v in Columns(cs) ensures v in Columns(ds) {
      var k :| 0 <= k < |cs| && Columns(cs)[k] == v;
      assert cs[k] in cs;
      var l :| 0 <= l < |ds| && ds[l] == cs[k];
      assert Columns(ds)[l] == v;
    }
    forall v | v in Columns(ds) ensures v in Columns(cs) {
      var k :| 0 <= k < |ds| && Columns(ds)[k] == v;
      assert ds[k] in ds;
      var l :| 0 <= l < |cs| && cs[l] == ds[k];
      assert Columns(cs)[l] == v;
    }
    forall v | v in Rows(cs) ensures v in Rows(ds) {
      var k :| 0 <= k < |cs| && Rows(cs)[k] == v;
      assert cs[k] in cs;
      var l :| 0 <= l < |ds| && ds[l] == cs[k];
      assert Rows(ds)[l] == v;
    }
    forall v | v in Rows(ds) ensures v in Rows(cs) {
      var k :| 0 <= k < |ds| && Rows(ds)[k] == v;
      assert ds[k] in ds;
      var l :| 0 <= l < |cs| && cs[l] == ds[k];
      assert Rows(cs)[l] == v;
    }
  }

  /** The extent depends only on which coordinates occur, not on their order. */
  lemma ExtentOfSameElements(cs: seq<Coord>, ds: seq<Coord>)
    requires forall c :: c in cs <==> c in ds
    ensures ExtentOf(cs) == ExtentOf(ds)
  {
    assert |cs| > 0 ==> cs[0] in cs;
    assert |ds| > 0 ==> ds[0] in ds;
    if |cs| > 0 {
      ColumnsAndRowsOfSameElements(cs, ds);
      MinOfSameElements(Columns(cs), Columns(ds));
      MaxOfSameElements(Columns(cs), Columns(ds));
      MinOfSameElements(Rows(cs), Rows(ds));
      MaxOfSameElements(Rows(cs), Rows(ds));
    }
  }

  lemma CoordsOfSameElements(ps: seq<Placement>, qs: seq<Placement>)
    requires forall p :: p in ps <==> p in qs
    ensures forall c :: c in Coords(ps) <==> c in Coords(qs)
  {
    forall c | c in Coords(ps) ensures c in Coords(qs) {
      var k :| 0 <= k < |ps| && Coords(ps)[k] == c;
      assert ps[k] in ps;
      var l :| 0 <= l < |qs| && qs[l] == ps[k];
      assert Coords(qs)[l] == c;
    }
    forall c | c in Coords(qs) ensures c in Coords(ps) {
      var k :| 0 <= k < |qs| && Coords(qs)[k] == c;
      assert qs[k] in qs;
      var l :| 0 <= l < |ps| && ps[l] == qs[k];
      assert Coords(ps)[l] == c;
    }
  }

  /** Two orders of the same tiles, with what the order-independence proof needs of them. */
  ghost predicate Reordered(ps: seq<Placement>, qs: seq<Placement>)
  {
    |ps| > 0 && |qs| > 0 && (forall p :: p in ps <==> p in qs) &&
    SameSizeTiles(ps) && SameSizeTiles(qs) && DistinctCoords(ps) && DistinctCoords(qs) &&
    qs[0].tile.width == ps[0].tile.width && qs[0].tile.height == ps[0].tile.height &&
    ExtentOf(Coords(ps)) == ExtentOf(Coords(qs))
  }

  /** Under `Reordered`, the two final images have one size. */
  lemma ReorderedSize(ps: seq<Placement>, qs: seq<Placement>, bg: Pixel)
    requires Reordered(ps, qs)
    ensures MosaicOf(ps, bg).value.width == MosaicOf(qs, bg).value.width
    ensures MosaicOf(ps, bg).value.height == MosaicOf(qs, bg).value.height
  {
    MosaicRendersLayers(ps, bg);
    MosaicRendersLayers(qs, bg);
  }

  /** Under `Reordered`, tile i of `ps` is tile j of `qs`, pasted at the same place. */
  lemma ReorderedLayer(ps: seq<Placement>, qs: seq<Placement>, i: int) returns (j: int)
    requires Reordered(ps, qs) && 0 <= i < |ps|
    ensures 0 <= j < |qs| && qs[j] == ps[i] && LayersOf(qs)[j] == LayersOf(ps)[i]
  {
    assert ps[i] in ps;
    j :| 0 <= j < |qs| && qs[j] == ps[i];
  }

  /** Under `Reordered`, a pixel that tile i of `ps` covers agrees in the two final images. */
  lemma ReorderedCoveredPixel(ps: seq<Placement>, qs: seq<Placement>, bg: Pixel, i: int, x: int, y: int)
    requires Reordered(ps, qs) && MosaicOf(ps, bg).value.InBounds(x, y) && MosaicOf(qs, bg).value.InBounds(x, y)
    requires 0 <= i < |ps| && LayersOf(ps)[i].Covers(x, y)
    ensures MosaicOf(ps, bg).value.At(x, y) == MosaicOf(qs, bg).value.At(x, y)
  {
    var l := LayersOf(ps)[i];
    assert MosaicOf(ps, bg).value.At(x, y) == l.PixelAt(x, y) by {
      MosaicShowsCoveringTile(ps, bg, i, x, y);
    }
    var j := ReorderedLayer(ps, qs, i);
    assert MosaicOf(qs, bg).value.At(x, y) == l.PixelAt(x, y) by {
      MosaicShowsCoveringTile(qs, bg, j, x, y);
    }
  }

  /** Under `Reordered`, a pixel no tile covers agrees in the two final images. */
  lemma ReorderedUncoveredPixel(ps: seq<Placement>, qs: seq<Placement>, bg: Pixel, x: int, y: int)
    requires Reordered(ps, qs) && MosaicOf(ps, bg).value.InBounds(x, y) && MosaicOf(qs, bg).value.InBounds(x, y)
    requires forall i | 0 <= i < |ps| :: !LayersOf(ps)[i].Covers(x, y)
    ensures MosaicOf(ps, bg).value.At(x, y) == MosaicOf(qs, bg).value.At(x, y)
  {
    forall j | 0 <= j < |qs| ensures !LayersOf(qs)[j].Covers(x, y) {
      assert qs[j] in qs;
      var i :| 0 <= i < |ps| && ps[i] == qs[j];
      assert LayersOf(qs)[j] == LayersOf(ps)[i];
    }
    MosaicBackground(ps, bg, x, y);
    MosaicBackground(qs, bg, x, y);
  }

  /** Under `Reordered`, every pixel of the two final images agrees. */
  lemma ReorderedPixel(ps: seq<Placement>, qs: seq<Placement>, bg: Pixel, x: int, y: int)
    requires Reordered(ps, qs) && MosaicOf(ps, bg).value.InBounds(x, y)
    ensures MosaicOf(qs, bg).value.InBounds(x, y)
    ensures MosaicOf(ps, bg).value.At(x, y) == MosaicOf(qs, bg).value.At(x, y)
  {
    ReorderedSize(ps, qs, bg);
    if i :| 0 <= i < |ps| && LayersOf(ps)[i].Covers(x, y) {
      ReorderedCoveredPixel(ps, qs, bg, i, x, y);
    } else {
      ReorderedUncoveredPixel(ps, qs, bg, x, y);
    }
  }

  /**
   * With tiles of one size at distinct coordinates, the final image does
   * not depend on the order in which the tiles are pasted.
   */
  lemma MosaicOrderIndependent(ps: seq<Placement>, qs: seq<Placement>, bg: Pixel)
    requires |ps| > 0 && multiset(ps) == multiset(qs) && AllTilesValid(qs)
    requires SameSizeTiles(ps) && DistinctCoords(ps) && DistinctCoords(qs)
    ensures MosaicOf(ps, bg) == MosaicOf(qs, bg)
  {
    assert forall p :: p in ps <==> p in qs by {
      forall p ensures p in ps <==> p in qs {
        assert p in ps <==> p in multiset(ps);
        assert p in qs <==> p in multiset(qs);
      }
    }
    assert ps[0] in ps && qs[0] in ps;
    assert SameSizeTiles(qs) by {
      forall j | 0 <= j < |qs| ensures qs[j].tile.Valid() && qs[j].tile.width == qs[0].tile.width && qs[j].tile.height == qs[0].tile.height {
        assert qs[j] in qs;
      }
    }
    CoordsOfSameElements(ps, qs);
    ExtentOfSameElements(Coords(ps), Coords(qs));
    assert Reordered(ps, qs);
    var a, b := MosaicOf(ps, bg).value, MosaicOf(qs, bg).value;
    MosaicRendersLayers(ps, bg);
    MosaicRendersLayers(qs, bg);
    forall x, y | a.InBounds(x, y)
      ensures a.At(x, y) == b.At(x, y)
    {
      ReorderedPixel(ps, qs, bg, x, y);
    }
    PictureExt(a, b);
  }

  /**
   * The extent counts `max_x - min_x` tiles across and `max_y - min_y`
   * down, with no +1: a tile in the last column or the last row is pasted
   * wholly outside the canvas.
   */
  lemma LastColumnAndRowClipped(ps: seq<Placement>, bg: Pixel, i: int)
    requires |ps| > 0 && AllTilesValid(ps) && 0 <= i < |ps|
    requires var e := ExtentOf(Coords(ps)).value; ps[i].at.x == e.maxX || ps[i].at.y == e.maxY
    ensures forall x, y | MosaicOf(ps, bg).value.InBounds(x, y) :: !LayersOf(ps)[i].Covers(x, y)
  {
    var e := ExtentOf(Coords(ps)).value;
    var tw, th := ps[0].tile.width, ps[0].tile.height;
    var m := MosaicOf(ps, bg).value;
    assert m.width == Span(e.minX, e.maxX, tw) && m.height == Span(e.minY, e.maxY, th) by {
      MosaicRendersLayers(ps, bg);
    }
    var l := LayersOf(ps)[i];
    assert l.x == Offset(ps[i].at.x, e.minX, tw) && l.y == Offset(ps[i].at.y, e.minY, th);
    assert l.x >= m.width || l.y >= m.height;
  }

  /** Every other tile of the first tile's size lands wholly inside the canvas. */
  lemma InnerTilesFit(ps: seq<Placement>, bg: Pixel, i: int)
    requires AllTilesValid(ps) && 0 <= i < |ps|
    requires ps[i].tile.width == ps[0].tile.width && ps[i].tile.height == ps[0].tile.height
    requires var e := ExtentOf(Coords(ps)).value; ps[i].at.x < e.maxX && ps[i].at.y < e.maxY
    ensures var l := LayersOf(ps)[i];
      forall u, v | ps[i].tile.InBounds(u, v) :: MosaicOf(ps, bg).value.InBounds(l.x + u, l.y + v)
  {
    var e := ExtentOf(Coords(ps)).value;
    var tw, th := ps[0].tile.width, ps[0].tile.height;
    var m := MosaicOf(ps, bg).value;
    assert m.width == Span(e.minX, e.maxX, tw) && m.height == Span(e.minY, e.maxY, th) by {
      MosaicRendersLayers(ps, bg);
    }
    var l := LayersOf(ps)[i];
    assert l.x == Offset(ps[i].at.x, e.minX, tw) && l.y == Offset(ps[i].at.y, e.minY, th);
    assert l.x >= 0 && l.y >= 0 by {
      OffsetsNonNegative(ps, i);
    }
    OffsetFits(ps[i].at.x, e.minX, e.maxX, tw);
    OffsetFits(ps[i].at.y, e.minY, e.maxY, th);
  }

  /** A single tile gives an empty image: its one column and row are the last ones. */
  lemma SingleTileGivesEmptyImage(t: Picture, c: Coord, bg: Pixel)
    requires t.Valid()
    ensures MosaicOf([Placement(t, c)], bg).value.width == 0
    ensures MosaicOf([Placement(t, c)], bg).value.height == 0
  {
    var ps := [Placement(t, c)];
    assert Coords(ps) == [c];
    assert Columns([c]) == [c.x] && Rows([c]) == [c.y];
    MosaicRendersLayers(ps, bg);
  }

  /**
   * Two tiles side by side at (5, 5) and (6, 5) give an image one tile wide
   * and zero rows tall; the second tile is pasted outside it.
   */
  lemma TwoTilesSideBySide(a: Picture, b: Picture, bg: Pixel)
    requires a.Valid() && b.Valid()
    ensures MosaicOf([Placement(a, Coord(5, 5)), Placement(b, Coord(6, 5))], bg).value.width == a.width
    ensures MosaicOf([Placement(a, Coord(5, 5)), Placement(b, Coord(6, 5))], bg).value.height == 0
  {
    var ps := [Placement(a, Coord(5, 5)), Placement(b, Coord(6, 5))];
    assert Coords(ps) == [Coord(5, 5), Coord(6, 5)];
    assert Columns(Coords(ps)) == [5, 6] && Rows(Coords(ps)) == [5, 5];
    assert MinOf([5, 6]) == 5 && MaxOf([5, 6]) == 6 by { assert [5, 6][1..] == [6]; }
    assert MinOf([5, 5]) == 5 && MaxOf([5, 5]) == 5 by { assert [5, 5][1..] == [5]; }
    MosaicRendersLayers(ps, bg);
  }
}
