/**
 * `main` (lines 49-114) as a whole: the listing is grouped into tiles, each
 * tile id is decoded to a grid coordinate and its fragments are stitched
 * into a tile, and the tiles are pasted into one image.  The directory
 * listing and the decoded images of its files are inputs; the image is
 * returned instead of being shown and saved.
 */
module Stitch {
  import opened Wrappers
  import opened Raster
  import opened FileNames
  import opened TileIds
  import opened Grouping
  import opened TileAssembly
  import opened Mosaic

  /** Where Python raises: a tile id line 75 cannot decode, or no fragment at all (line 93). */
  datatype Error = BadTileId(id: string) | NoFragments

  /** Every fragment file filed in `g` has a decoded image. */
  ghost predicate ImagesFor(g: Grouping, images: map<string, Picture>)
  {
    forall id, t | id in g.tiles && t in g.tiles[id] :: g.tiles[id][t] in images && images[g.tiles[id][t]].Valid()
  }

  /** Token -> image for one tile's quadrant map `files` (token -> file name). */
  function Fragments(files: map<string, string>, images: map<string, Picture>): (r: map<string, Picture>)
    requires forall t | t in files :: files[t] in images
    ensures r.Keys == files.Keys && forall t | t in files :: r[t] == images[files[t]]
  {
    map t | t in files :: images[files[t]]
  }

  /** Tile id `id` is filed in `g` with its first token, and every fragment of it has a valid image. */
  ghost predicate Filed(g: Grouping, images: map<string, Picture>, id: string)
  {
    && id in g.tiles && id in g.first && g.first[id] in g.tiles[id]
    && forall t | t in g.tiles[id] :: g.tiles[id][t] in images && images[g.tiles[id][t]].Valid()
  }

  /** The tile `stitch_tile` assembles for tile id `id` of `g` (line 84). */
  ghost function TileOf(g: Grouping, images: map<string, Picture>, id: string): (t: Picture)
    requires Filed(g, images, id)
    ensures t.Valid()
    ensures forall q | q in {NW, NE, SE, SW} && q in g.tiles[id] ::
      images[g.tiles[id][q]].width <= t.width && images[g.tiles[id][q]].height <= t.height
  {
    AssembleTile(Fragments(g.tiles[id], images), g.first[id])
  }

  /** The tiles of all tile ids of `g`. */
  ghost function TilePictures(g: Grouping, images: map<string, Picture>): (r: map<string, Picture>)
    requires WellFormed(g) && ImagesFor(g, images)
    ensures r.Keys == g.tiles.Keys
    ensures forall id | id in r :: r[id] == TileOf(g, images, id)
  {
    map id | id in g.tiles :: TileOf(g, images, id)
  }

  /** The grid coordinate of lines 79-82 for each tile id that decodes. */
  function Coordinates(ids: set<string>): (r: map<string, Coord>)
    ensures r.Keys == set id | id in ids && DecodeTileId(id).Some?
    ensures forall id | id in r :: r[id] == GridCoordinate(DecodeTileId(id).value)
  {
    map id | id in ids && DecodeTileId(id).Some? :: GridCoordinate(DecodeTileId(id).value)
  }

  /** The position of the first tile id in `order` that does not decode, or `|order|` when all do. */
  function FirstUndecodable(order: seq<string>): (k: nat)
    ensures k <= |order|
    ensures forall j | 0 <= j < k :: DecodeTileId(order[j]).Some?
    ensures k < |order| ==> DecodeTileId(order[k]).None?
  {
    if |order| == 0 || DecodeTileId(order[0]).None? then 0
    else 1 + FirstUndecodable(order[1..])
  }

  /**
   * What `main` produces: the error Python stops with, or the final image
   * composed from the tiles in the order their ids were first listed.
   * `NoFragments` comes exactly from a listing in which no name matches,
   * `BadTileId` names a listed tile id that does not decode, and an image
   * comes only when every tile id decodes.
   */
  ghost function StitchOf(listing: seq<string>, images: map<string, Picture>, bg: Pixel): (r: Result<Picture, Error>)
    requires WellFormed(Group(listing)) && ImagesFor(Group(listing), images)
    ensures r == Err(NoFragments) <==> forall i | 0 <= i < |listing| :: ParseFileName(listing[i]).None?
    ensures r.Err? && r.error.BadTileId? ==> r.error.id in Group(listing).order && DecodeTileId(r.error.id).None?
    ensures r.Ok? ==> forall id | id in Group(listing).order :: DecodeTileId(id).Some?
  {
    GroupEmpty(listing);
    var g := Group(listing);
    var k := FirstUndecodable(g.order);
    if k < |g.order| then Err(BadTileId(g.order[k]))
    else if |g.order| == 0 then Err(NoFragments)
    else
      TilesPlaced(g, images);
      Ok(MosaicOf(Placements(g.order, TilePictures(g, images), Coordinates(g.tiles.Keys)), bg).value)
  }

  /** When every tile id decodes, each has a tile and a coordinate, and every tile is a valid picture. */
  lemma TilesPlaced(g: Grouping, images: map<string, Picture>)
    requires WellFormed(g) && ImagesFor(g, images) && FirstUndecodable(g.order) == |g.order|
    ensures forall id | id in g.order :: id in TilePictures(g, images) && id in Coordinates(g.tiles.Keys)
    ensures AllTilesValid(Placements(g.order, TilePictures(g, images), Coordinates(g.tiles.Keys)))
  {
    var tiles := TilePictures(g, images);
    forall id | id in tiles
      ensures tiles[id].Valid()
    {
      assert tiles[id] == AssembleTile(Fragments(g.tiles[id], images), g.first[id]);
    }
  }

  /** Every name the scan files is in the listing and matches the pattern. */
  lemma FiledNamesAreListed(listing: seq<string>, id: string, t: string)
    requires id in Group(listing).tiles && t in Group(listing).tiles[id]
    ensures Group(listing).tiles[id][t] in listing
    ensures ParseFileName(Group(listing).tiles[id][t]).Some?
  {
    GroupKeepsLast(listing, id, t);
  }

  /**
   * Placements built from the stitched tiles and decoded coordinates of
   * every tile id are those `StitchOf` composes.
   */
  lemma PlacementsOfStitchedTiles(g: Grouping, pics: map<string, Picture>,
                                  tiles: map<string, Picture>, coords: map<string, Coord>)
    requires WellFormed(g) && ImagesFor(g, pics)
    requires forall id | id in g.order ::
      Filed(g, pics, id) && id in tiles && tiles[id] == TileOf(g, pics, id) &&
      DecodeTileId(id).Some? && id in coords && coords[id] == GridCoordinate(DecodeTileId(id).value)
    ensures Placements(g.order, tiles, coords) == Placements(g.order, TilePictures(g, pics), Coordinates(g.tiles.Keys))
  {
    var tp, cp := TilePictures(g, pics), Coordinates(g.tiles.Keys);
    forall id | id in g.order
      ensures id in tp && id in cp && tp[id] == tiles[id] && cp[id] == coords[id]
    {
      assert id in g.tiles;
    }
    PlacementsAgree(g.order, tiles, tp, coords, cp);
  }

  /** With an image for every matching name of the listing, the grouping is well formed and every tile id is filed. */
  lemma GroupedImages(listing: seq<string>, pics: map<string, Picture>)
    requires forall f | f in listing && ParseFileName(f).Some? :: f in pics && pics[f].Valid()
    ensures WellFormed(Group(listing)) && ImagesFor(Group(listing), pics)
    ensures forall id | id in Group(listing).order :: Filed(Group(listing), pics, id)
  {
    var g := Group(listing);
    GroupWellFormed(listing);
    forall id, t | id in g.tiles && t in g.tiles[id]
      ensures g.tiles[id][t] in pics && pics[g.tiles[id][t]].Valid()
    {
      FiledNamesAreListed(listing, id, t);
    }
    forall id | id in g.order
      ensures Filed(g, pics, id)
    {
      assert id in g.tiles;
    }
  }

  /** Placements built from maps that agree on the ids of `order` are the same. */
  lemma PlacementsAgree(order: seq<string>, a: map<string, Picture>, b: map<string, Picture>,
                        ca: map<string, Coord>, cb: map<string, Coord>)
    requires forall id | id in order :: id in a && id in b && id in ca && id in cb && a[id] == b[id] && ca[id] == cb[id]
    ensures Placements(order, a, ca) == Placements(order, b, cb)
  {
  }

  /** Line 84 for one tile id: the fragments filed under it, stitched into a tile. */
  method StitchOne(g: Grouping, id: string, images: map<string, array2<Pixel>>, ghost pics: map<string, Picture>, verbose: bool)
    returns (tile: array2<Pixel>)
    requires Filed(g, pics, id)
    requires pics == SnapAll(images)
    ensures fresh(tile)
    ensures Snap(tile) == TileOf(g, pics, id)
  {
    var files := g.tiles[id];
    var frags := map t | t in files :: images[files[t]];
    assert SnapAll(frags) == Fragments(files, pics);
    var mismatch;
    tile, mismatch := StitchTile(frags, g.first[id], verbose);
  }

  /**
   * The loop of lines 69-90: each tile id in order is decoded to its grid
   * coordinate and its fragments are stitched.  `bad` is the first id that
   * does not decode, where Python stops.
   */
  method StitchTiles(g: Grouping, images: map<string, array2<Pixel>>, ghost pics: map<string, Picture>, verbose: bool)
    returns (completed: map<string, array2<Pixel>>, coords: map<string, Coord>, bad: Option<string>)
    requires forall id | id in g.order :: Filed(g, pics, id)
    requires pics == SnapAll(images)
    ensures var k := FirstUndecodable(g.order);
      bad == if k < |g.order| then Some(g.order[k]) else None
    ensures bad.None? ==> forall id | id in g.order ::
      id in completed && id in coords && fresh(completed[id]) &&
      Snap(completed[id]) == TileOf(g, pics, id) && coords[id] == GridCoordinate(DecodeTileId(id).value)
  {
    completed, coords := map[], map[];
    for i := 0 to |g.order|
      invariant pics == SnapAll(images)
      invariant forall id | id in g.order[..i] :: id in completed && id in coords
      invariant forall id | id in coords :: DecodeTileId(id).Some? && coords[id] == GridCoordinate(DecodeTileId(id).value)
      invariant forall id | id in completed :: Filed(g, pics, id) && fresh(completed[id]) && Snap(completed[id]) == TileOf(g, pics, id)
    {
      var id := g.order[i];
      assert g.order[..i + 1] == g.order[..i] + [id];
      var loc := DecodeTileId(id);
      if loc.None? {
        assert FirstUndecodable(g.order) == i;
        return completed, coords, Some(id);
      }
      coords := coords[id := GridCoordinate(loc.value)];
      var tile := StitchOne(g, id, images, pics, verbose);
      completed := completed[id := tile];
    }
    assert g.order[..|g.order|] == g.order;
    assert FirstUndecodable(g.order) == |g.order|;
    bad := None;
  }

  /**
   * `main(source_dir, out_file, bg_color, verbose)` without the I/O:
   * `listing` is `os.listdir(source_dir)` and `images` holds the decoded
   * image of every listed fragment file.
   */
  method StitchDirectory(listing: seq<string>, images: map<string, array2<Pixel>>, bg: Pixel, verbose: bool)
    returns (r: Result<array2<Pixel>, Error>)
    requires forall f | f in listing && ParseFileName(f).Some? :: f in images
    ensures WellFormed(Group(listing)) && ImagesFor(Group(listing), old(SnapAll(images)))
    ensures r.Ok? ==> fresh(r.value)
    ensures r.Ok? <==> StitchOf(listing, old(SnapAll(images)), bg).Ok?
    ensures r.Ok? ==> Snap(r.value) == StitchOf(listing, old(SnapAll(images)), bg).value
    ensures r.Err? ==> r.error == StitchOf(listing, old(SnapAll(images)), bg).error
  {
    var g := GroupFragments(listing);
    ghost var pics := SnapAll(images);
    GroupedImages(listing, pics);
    var completed, coords, bad := StitchTiles(g, images, pics, verbose);
    if bad.Some? {
      return Err(BadTileId(bad.value));
    }
    ghost var tiles := SnapAll(completed);
    PlacementsOfStitchedTiles(g, pics, tiles, coords);
    var m := ComposeMosaic(g.order, completed, coords, bg);
    if m.None? {
      return Err(NoFragments);
    }
    return Ok(m.value);
  }
}
