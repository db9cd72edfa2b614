# stitch-em-up in Dafny

A verified model of `stitch_em_up.py`. The script reassembles map tiles
from quadrant fragment files named
`m_<tile id>_<token>_<n>_<word>_<n>_<n>.png`. It works in four steps:

- It groups the directory listing by tile id and quadrant token.
- It decodes each tile id (two digits of latitude, three of longitude, the
  rest a 1-based quadrangle number) to a cell of an 8 by 8 grid per
  quadrangle.
- It stitches the nw/ne/se/sw fragments of each tile onto a yellow canvas
  with seven pastes, in a fixed order.
- It pastes every tile onto one background canvas at its grid offset.

## Modules

- `wrappers.dfy`: `Option` and `Result`.
- `raster.dfy` (`Raster`):
  - Pixels are opaque RGBA values. PIL images are `array2<Pixel>` indexed
    `[x, y]`, and `Picture` is their value (`Snap`).
  - `Paste` is PIL's `paste` without a mask: a rectangle copy clipped to the
    destination.
  - `Render(ls, bg, w, h)` is the picture that pasting the layers `ls` in
    order onto a `bg`-filled canvas gives. At every pixel the last layer
    covering it wins.
- `filenames.dfy` (`FileNames`): the file-name regex of line 50, as a small
  anchored, backtracking matcher for `\d+`, `\w+` (ASCII), `.` and literals.
  `ParseFileName` gives groups 1 and 2.
- `tile_ids.dfy` (`TileIds`): the tile-id regex of line 51 (`DecodeTileId`)
  and the grid formula of lines 77-82 (`GridCoordinate`).
- `grouping.dfy` (`Grouping`): the scan of lines 56-64.
  - The `tiles` dictionary is a map of maps.
  - Python's dictionary insertion order is kept explicitly: `order` holds the
    tile ids as first inserted, and `first[id]` is `list(tile)[0]`.
- `tile_assembly.dfy` (`TileAssembly`): `stitch_tile`, lines 19-46.
- `mosaic.dfy` (`Mosaic`): the extent and placement loop of lines 92-114.
- `stitch.dfy` (`Stitch`): `main` as a whole, without its I/O.
  - The directory listing and the decoded images are inputs.
  - The two ways Python stops become `Err` results: an id the tile-id
    pattern does not match (line 75) and a listing with no matching name
    (line 93).

### The missing + 1

One might expect two tiles at (5,5) and (6,5) to give a mosaic 2 tile widths
wide and 1 tile height tall. Lines 98-106 compute `max - min` tiles, without
`+ 1`, so that layout gives 1 tile width by 0 tile heights. The model
follows the code:

- `Mosaic.MosaicOfExtent` proves the size `max - min` in general.
- `Mosaic.TwoTilesSideBySide` proves what the code gives for that layout.
- `Mosaic.LastColumnAndRowClipped` proves that the last column and the last
  row of tiles are always cut off.

## Model

| member | source | states |
|---|---|---|
| Raster.Paste | stitch_em_up.py:37-44 | afterwards the destination is the old destination with the source rectangle at (ox, oy) copied over it, clipped to the destination; every other pixel keeps its old value |
| Raster.PasteOnto | stitch_em_up.py:37 | the pasted picture keeps the destination's size; each pixel comes from the source where the source rectangle covers it and from the destination elsewhere |
| Raster.PasteRenders | stitch_em_up.py:37-44 | pasting one more layer onto the rendering of a sequence of pastes gives the rendering of the longer sequence (successive pastes compose) |
| Raster.Composite | stitch_em_up.py:34-44 | after a sequence of pastes onto a uniform fill each pixel shows the last paste that covers it, or the fill colour when none does |
| Raster.Render | stitch_em_up.py:108-114 | a canvas of the given size, filled and then pasted on in order, is a valid picture of that size whose every pixel is the composite of the pastes over the fill |
| Raster.CompositeLaterWins | stitch_em_up.py:41-44 | once a later paste covers a pixel, nothing pasted before it matters there, not even the fill colour |
| Raster.CompositeOfDisjoint | stitch_em_up.py:110-114 | when no two pastes overlap, a pixel covered by a paste shows that paste, whatever the order |
| Raster.NewImage | stitch_em_up.py:22 | `Image.new` gives a fresh image of the given size with every pixel the given colour |
| FileNames.ParseFileName | stitch_em_up.py:57-59 | a match needs the name to start with `m_`; group 1 is a non-empty digit run and group 2 a non-empty word run |
| FileNames.Matches | stitch_em_up.py:50 | a `re.match` of a pattern that starts at the beginning of the name and may stop before its end; every atom consumes a character, so a match needs at least as many characters as atoms |
| FileNames.Run | stitch_em_up.py:50 | the length of the longest prefix of one character class: every character before it is in the class and the next one is not |
| FileNames.LongestToken | stitch_em_up.py:50 | the backtracking choice of `(\w+)`: the longest word length up to the run whose remainder the rest of the pattern matches; no longer one is matched |
| FileNames.ParseFileNameSound | stitch_em_up.py:57-59 | a match means the name is `m_` + a digit run (group 1) + `_` + a word run (group 2) + a remainder the rest of the pattern matches |
| FileNames.ParseComplete | stitch_em_up.py:57-59 | every name of that shape matches; group 1 is exactly the digit run and group 2 is at least the chosen word part |
| FileNames.ParseExact | stitch_em_up.py:57-59 | when no longer word part leaves a matching remainder, group 2 is exactly the chosen word part |
| FileNames.CanonicalNameParses | stitch_em_up.py:50 | a name of the documented form `m_<id>_<token>_<n>_<word>_<n>_<n>.png` with no `_` in the word field is grouped under exactly that id and token, even when the token holds `_` |
| FileNames.LongerTokensFail | stitch_em_up.py:50 | in such a name, no token longer than the documented one leaves a remainder the pattern matches, because that remainder has too few `_` |
| FileNames.MatchNeedsUnderscores | stitch_em_up.py:50 | a pattern match uses at least one `_` of the text per literal `_` of the pattern |
| TileIds.DecimalValue | stitch_em_up.py:75-77 | `int()` of a digit string: a string of n digits has a value below 10^n |
| TileIds.DecodeTileId | stitch_em_up.py:74-77 | the tile-id pattern matches exactly when the id starts with six digits; otherwise there is no match and line 75 fails |
| TileIds.DecodeDigits | stitch_em_up.py:75-77 | an all-digit id of six or more digits decodes to the values of its first 2 digits, its next 3 digits and all the remaining digits |
| TileIds.TileIdRoundTrip | stitch_em_up.py:75-77 | writing the decoded latitude, longitude and quadrangle back with 2, 3 and the remaining number of digits gives the id again |
| TileIds.TileIdEncodeDecode | stitch_em_up.py:75-77 | a location written with 2, 3 and n >= 1 digits decodes back to that location |
| TileIds.GridCoordinate | stitch_em_up.py:77-82 | x is 8 * (180 - longitude) plus an offset in 0..7, and 8 * (y row offset) + (x offset) is the 0-based quadrangle number |
| TileIds.NextQuadrangle | stitch_em_up.py:77-82 | for quadrangles 1..63, q + 1 in the same row is one step east; after every eighth quadrangle y grows by 1 and the x offset goes from 7 back to 0 |
| TileIds.GridCoordinateInverse | stitch_em_up.py:77-82 | for quadrangles 1..64, longitude, latitude and quadrangle can be read back from the grid cell |
| TileIds.GridCoordinateInjective | stitch_em_up.py:77-82 | distinct locations with quadrangles 1..64 get distinct grid cells |
| Grouping.Group | stitch_em_up.py:56-64 | the dictionary after the scan records at most one tile id per listed name |
| Grouping.Insert | stitch_em_up.py:57-64 | a name the pattern does not match leaves the dictionary as it was; a matching one is entered under its groups |
| Grouping.Enter | stitch_em_up.py:61-64 | the entry under the id and token becomes the file and every other entry stays; a new id is appended to the insertion order with this token as its first, a known id keeps its order and first token; no id and no token other than these gains an entry |
| Grouping.GroupEmpty | stitch_em_up.py:56-64 | the scan records no tile id exactly when no listed name matches, and then the dictionary is empty |
| Grouping.GroupFragments | stitch_em_up.py:56-64 | the loop over the listing builds exactly the grouping `Group` defines (dictionary, insertion order of ids, first token of each id) |
| Grouping.GroupWellFormed | stitch_em_up.py:56-64 | after the scan each tile id is listed once in insertion order, the ids with entries are exactly those, and each id's first token is one of its entries, so no quadrant map is empty |
| Grouping.GroupFilesEveryMatch | stitch_em_up.py:56-64 | every matching name of the listing is filed under its tile id and token |
| Grouping.GroupKeepsLast | stitch_em_up.py:61-62 | the entry under an id and token is the last listed name with that id and token: a later file replaces an earlier one |
| Grouping.GroupFirstToken | stitch_em_up.py:61-64 | the first token recorded for an id (`list(tile)[0]`) is that of the first listed name with that id |
| Grouping.GroupSkipsNonMatching | stitch_em_up.py:57 | a name the pattern does not match leaves the dictionary unchanged, wherever it is listed |
| TileAssembly.Quadrant | stitch_em_up.py:22-27 | a filed quadrant token gives its fragment; a missing one gives a fully transparent picture the size of the first-recorded fragment |
| TileAssembly.SizeMismatch | stitch_em_up.py:29 | the message condition holds exactly when the four quadrant pictures are not all of one width and height |
| TileAssembly.CanvasWidth | stitch_em_up.py:32 | the tile width is at least each of the four side-by-side sums nw+ne, sw+se, nw+se, sw+ne and equal to one of them |
| TileAssembly.CanvasHeight | stitch_em_up.py:33 | the tile height is at least each of the four stacked sums nw+sw, ne+se, nw+se, sw+ne and equal to one of them |
| TileAssembly.TileLayers | stitch_em_up.py:37-44 | seven pastes of ne, se, sw, nw, ne, se, sw in that order, all at non-negative offsets, with nw at the corner, ne on the top edge and sw on the left edge; the second pass puts ne at (W // 2, 0), se at (W // 2, H // 2) and sw at (0, H // 2) for the canvas size W by H |
| TileAssembly.Assemble | stitch_em_up.py:32-44 | the tile has the canvas size of lines 32-33 and each pixel shows the last of the seven pastes covering it, else yellow |
| TileAssembly.AssembleTile | stitch_em_up.py:19-46 | the returned tile is a valid picture and every nw, ne, se or sw fragment fits inside it |
| TileAssembly.Max4 | stitch_em_up.py:32-33 | Python's `max` of four numbers is at least each of them and equal to one of them |
| TileAssembly.StitchTile | stitch_em_up.py:19-46 | returns a fresh tile equal to the assembly of the chosen quadrant pictures; the size-mismatch flag is set exactly when verbose and the four sizes are not all equal |
| TileAssembly.ChooseQuadrants | stitch_em_up.py:20-27 | each quadrant is its fragment if that token was filed, else a transparent blank the size of the first-recorded fragment |
| TileAssembly.PasteQuadrants | stitch_em_up.py:32-44 | the tile is a fresh canvas of the max-of-pair-sums size, filled yellow, with the seven pastes applied in order |
| TileAssembly.FlushPass | stitch_em_up.py:37-39 | after the first pass the canvas shows ne, se and sw pasted flush with the right and bottom edges over yellow |
| TileAssembly.QuarterPass | stitch_em_up.py:41-44 | after the second pass the canvas shows all seven pastes in order |
| TileAssembly.FlushPassFitsCanvas | stitch_em_up.py:32-39 | the first-pass pastes lie inside the canvas: ne ends at the right edge, se at the right and bottom edges, sw at the bottom edge |
| TileAssembly.EqualQuadrantsAssemble | stitch_em_up.py:32-44 | four w by h quadrants give a 2w by 2h tile whose four quarters are exactly nw, ne, sw and se, so no yellow is left |
| TileAssembly.AssembledQuarters | stitch_em_up.py:20-44 | with all fragments one size, the tile is twice the first fragment's size and each quarter equals its quadrant picture |
| TileAssembly.MissingQuarterIsTransparent | stitch_em_up.py:22-44 | with all fragments one size, the quarter of a missing quadrant is entirely transparent |
| TileAssembly.NoQuadrantTokensGiveBlankTile | stitch_em_up.py:20-27 | a tile none of whose tokens is nw, ne, se or sw comes out twice the first fragment's size and fully transparent |
| TileAssembly.QuarterPassWins | stitch_em_up.py:37-44 | a pixel the quarter pass writes shows the quarter-pass value, whatever the first pass and the fill put there |
| TileAssembly.UnpastedPixelsStayYellow | stitch_em_up.py:34-44 | a pixel no paste covers keeps the yellow fill |
| Mosaic.MinOf | stitch_em_up.py:93 | `min` of a non-empty sequence is one of its elements and at most every element |
| Mosaic.MaxOf | stitch_em_up.py:94 | `max` of a non-empty sequence is one of its elements and at least every element |
| Mosaic.ExtentOf | stitch_em_up.py:92-96 | the extent exists exactly when there is a coordinate; then min <= max on both axes, every coordinate lies within, and each bound is a column or row of the coordinates |
| Mosaic.ExtentBoundsAttained | stitch_em_up.py:93-96 | each of min_x, max_x, min_y and max_y is the column or row of some tile, as Python's `min` and `max` return |
| Mosaic.Offset | stitch_em_up.py:112-114 | the smallest coordinate is pasted at the edge and no coordinate at or past it before the edge |
| Mosaic.NeighboursAbut | stitch_em_up.py:112-114 | a tile in the next column (or row) starts exactly where this one ends: no gap and no overlap |
| Mosaic.Span | stitch_em_up.py:98-106 | the canvas side is `(max - min) * size`, which is exactly the offset where a tile of the largest coordinate is pasted |
| Mosaic.Placements | stitch_em_up.py:110 | the tiles paired with their coordinates, one per tile id, in the dictionary's insertion order |
| Mosaic.MosaicLayers | stitch_em_up.py:110-114 | one paste per tile, in order, of that tile's picture at `((x - min_x) * tile_width, (y - min_y) * tile_height)` |
| Mosaic.MosaicOf | stitch_em_up.py:92-114 | the mosaic exists exactly when there is a tile (Python's `min` fails on none) and is then a valid picture |
| Mosaic.MosaicOfExtent | stitch_em_up.py:98-114 | the mosaic is `(max_x - min_x) * tile_width` by `(max_y - min_y) * tile_height`, with no + 1 and the first tile's size, and each pixel shows the last tile pasted over it, else the background colour |
| Mosaic.ComposeMosaic | stitch_em_up.py:92-114 | returns a canvas exactly when there is a tile, and then a fresh canvas equal to the mosaic of the tiles and coordinates in order |
| Mosaic.PasteTiles | stitch_em_up.py:110-114 | the loop pastes every tile in order at its scaled offset |
| Mosaic.OffsetsNonNegative | stitch_em_up.py:111-114 | every tile is pasted at a non-negative offset |
| Mosaic.DisjointPlacement | stitch_em_up.py:110-114 | tiles of the first tile's size at distinct grid cells are pasted on disjoint rectangles |
| Mosaic.MosaicShowsCoveringTile | stitch_em_up.py:110-114 | with equal-size tiles at distinct cells, each mosaic pixel inside a tile's rectangle shows that tile's pixel at the relative position |
| Mosaic.MosaicBackground | stitch_em_up.py:108-114 | a mosaic pixel no tile covers has the background colour |
| Mosaic.ExtentOfSameElements | stitch_em_up.py:92-96 | the extent depends only on the set of coordinates, not on their order |
| Mosaic.MosaicOrderIndependent | stitch_em_up.py:108-114 | with equal-size tiles at distinct cells, any reordering of the same tiles gives the same mosaic |
| Mosaic.LastColumnAndRowClipped | stitch_em_up.py:98-106 | a tile in the largest column or row lies wholly outside the canvas (the consequence of the missing + 1) |
| Mosaic.InnerTilesFit | stitch_em_up.py:98-114 | a tile of the first tile's size that is not in the largest column or row lies wholly inside the canvas, whatever the sizes of the other tiles |
| Mosaic.SingleTileGivesEmptyImage | stitch_em_up.py:98-108 | a single tile gives a 0 by 0 mosaic |
| Mosaic.TwoTilesSideBySide | stitch_em_up.py:98-108 | tiles at (5,5) and (6,5) give a mosaic one tile width wide and 0 high |
| Stitch.TileOf | stitch_em_up.py:84 | the tile `stitch_tile` makes for one id from the fragments filed under it is a valid picture that every nw, ne, se and sw fragment fits inside |
| Stitch.Coordinates | stitch_em_up.py:74-82 | the coordinate map has exactly the ids that decode, each mapped to the grid cell of its decoded location |
| Stitch.FirstUndecodable | stitch_em_up.py:69-77 | the position of the first id in insertion order that does not decode (where Python stops); all earlier ids decode |
| Stitch.StitchOne | stitch_em_up.py:73-84 | the fresh tile for one id is `stitch_tile` of the fragments filed under it, with its first-recorded token |
| Stitch.StitchTiles | stitch_em_up.py:69-90 | reports the first undecodable id if there is one; otherwise every id has a fresh stitched tile and its decoded grid coordinate |
| Stitch.GroupedImages | stitch_em_up.py:56-64 | with an image for every matching name of the listing, every filed fragment has an image |
| Stitch.StitchOf | stitch_em_up.py:49-114 | `NoFragments` exactly when no listed name matches; `BadTileId` names a listed tile id that does not decode; an image only when every tile id decodes |
| Stitch.StitchDirectory | stitch_em_up.py:49-114 | `main` gives the first undecodable tile id as an error, no fragments as an error, or else the mosaic of the stitched tiles in first-seen order at their decoded coordinates |

## Left out

- Argument parsing (lines 11-16, 120-121): `bg_color` and `verbose` are
  parameters.
- `os.listdir`, `Image.open`, `show` and `save` (lines 21, 24-27, 56,
  116-117): the listing is a sequence of names and the decoded images are
  arrays passed in. The model does not fix the listing order.
- The font and the red `+` marker (lines 86-88): the glyph renderer is
  outside the model. The model's completed tiles are the tiles before the
  marker is drawn. Drawing it changes pixels near the centre but not the
  size.
- The verbose prints (lines 29-30, 70-71). `StitchTile` returns the "Size
  mismatch" condition as a flag, and `StitchOne` ignores it.
- RGBA semantics and PIL mode conversion: pixels are opaque values. PIL's
  `paste` without a mask copies them unchanged.
- `\d` and `\w` are ASCII only (Python's `str` patterns also accept other
  Unicode digits and letters).
- Stitch.StitchTiles: when an id does not decode, Python raises at line 75
  after stitching the ids before it. The model reports the id and drops the
  tiles already stitched.
- Mosaic.MosaicOrderIndependent: holds for tiles of one size at distinct
  grid cells. The source checks neither. Ids that decode to the same cell,
  such as quadrangle numbers above 64 or written with extra leading zeros,
  do overlap, and there the later paste wins.
