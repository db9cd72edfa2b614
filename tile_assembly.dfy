/**
 * `stitch_tile` (lines 19-46): the up to four quadrant fragments of one tile
 * are pasted onto a yellow canvas whose size is the largest sum of two
 * quadrant sizes; a missing quadrant is a transparent blank the size of the
 * first-recorded fragment.
 */
module TileAssembly {
  import opened Raster

  const NW := "nw"
  const NE := "ne"
  const SE := "se"
  const SW := "sw"

  /** Python's `max` of four numbers. */
  function Max4(a: int, b: int, c: int, d: int): (m: int)
    ensures m >= a && m >= b && m >= c && m >= d
    ensures m == a || m == b || m == c || m == d
  {
    Max(Max(a, b), Max(c, d))
  }

  /** The picture used for quadrant `q`: its fragment, else a blank the size of the first-recorded one. */
  function Quadrant(frags: map<string, Picture>, first: string, q: string): (p: Picture)
    requires first in frags
    ensures q in frags ==> p == frags[q]
    ensures q !in frags ==> p.Valid() && p.width == frags[first].width && p.height == frags[first].height
    ensures q !in frags ==> forall x, y | p.InBounds(x, y) :: p.At(x, y) == Transparent
  {
    if q in frags then frags[q] else Filled(frags[first].width, frags[first].height, Transparent)
  }

  /** `image_width`, line 32: the widest of four side-by-side pairs of quadrants. */
  function CanvasWidth(nw: Picture, ne: Picture, se: Picture, sw: Picture): (w: nat)
    ensures w >= nw.width + ne.width && w >= sw.width + se.width
    ensures w >= nw.width + se.width && w >= sw.width + ne.width
    ensures w in {nw.width + ne.width, sw.width + se.width, nw.width + se.width, sw.width + ne.width}
  {
    Max4(nw.width + ne.width, sw.width + se.width, nw.width + se.width, sw.width + ne.width)
  }

  /**
   * `image_height`, line 33: the tallest of four stacked pairs of quadrants;
   * note the pairs differ from those of the width.
   */
  function CanvasHeight(nw: Picture, ne: Picture, se: Picture, sw: Picture): (h: nat)
    ensures h >= nw.height + sw.height && h >= ne.height + se.height
    ensures h >= nw.height + se.height && h >= sw.height + ne.height
    ensures h in {nw.height + sw.height, ne.height + se.height, nw.height + se.height, sw.height + ne.height}
  {
    Max4(nw.height + sw.height, ne.height + se.height, nw.height + se.height, sw.height + ne.height)
  }

  /**
   * The seven pastes of lines 37-44, in order: ne, se and sw flush with the
   * right and bottom edges, then the four quadrants at the quarter points.
   */
  function TileLayers(nw: Picture, ne: Picture, se: Picture, sw: Picture): (ls: seq<Layer>)
    ensures |ls| == 7
    ensures ls[0].img == ne && ls[1].img == se && ls[2].img == sw
    ensures ls[3].img == nw && ls[4].img == ne && ls[5].img == se && ls[6].img == sw
    ensures forall i | 0 <= i < |ls| :: ls[i].x >= 0 && ls[i].y >= 0
    ensures ls[3].x == 0 && ls[3].y == 0 && ls[4].y == 0 && ls[6].x == 0
    ensures var w, h := CanvasWidth(nw, ne, se, sw), CanvasHeight(nw, ne, se, sw);
      ls[4].x == w / 2 && ls[5].x == w / 2 && ls[5].y == h / 2 && ls[6].y == h / 2
  {
    var w := CanvasWidth(nw, ne, se, sw);
    var h := CanvasHeight(nw, ne, se, sw);
    [Layer(ne, w - ne.width, 0), Layer(se, w - se.width, h - se.height), Layer(sw, 0, h - sw.height),
     Layer(nw, 0, 0), Layer(ne, w / 2, 0), Layer(se, w / 2, h / 2), Layer(sw, 0, h / 2)]
  }

  /**
   * The first pass lies inside the canvas, flush with its edges: ne ends at
   * the right edge, se at the right and bottom edges, sw at the bottom edge,
   * because each canvas side is at least the sum of two fragment sides.
   */
  lemma FlushPassFitsCanvas(nw: Picture, ne: Picture, se: Picture, sw: Picture)
    ensures var ls, w, h := TileLayers(nw, ne, se, sw), CanvasWidth(nw, ne, se, sw), CanvasHeight(nw, ne, se, sw);
      && ls[0] == Layer(ne, ls[0].x, 0) && 0 <= ls[0].x && ls[0].x + ne.width == w
      && ls[1] == Layer(se, ls[1].x, ls[1].y) && 0 <= ls[1].x && ls[1].x + se.width == w
      && 0 <= ls[1].y && ls[1].y + se.height == h
      && ls[2] == Layer(sw, 0, ls[2].y) && 0 <= ls[2].y && ls[2].y + sw.height == h
  {
  }

  ghost predicate ValidQuadrants(nw: Picture, ne: Picture, se: Picture, sw: Picture)
  {
    nw.Valid() && ne.Valid() && se.Valid() && sw.Valid()
  }

  /** The tile `stitch_tile` returns for the four quadrant pictures. */
  function Assemble(nw: Picture, ne: Picture, se: Picture, sw: Picture): (t: Picture)
    requires ValidQuadrants(nw, ne, se, sw)
    ensures t.Valid() && t.width == CanvasWidth(nw, ne, se, sw) && t.height == CanvasHeight(nw, ne, se, sw)
    ensures forall x, y | t.InBounds(x, y) :: t.At(x, y) == Composite(TileLayers(nw, ne, se, sw), Yellow, x, y)
  {
    Render(TileLayers(nw, ne, se, sw), Yellow, CanvasWidth(nw, ne, se, sw), CanvasHeight(nw, ne, se, sw))
  }

  ghost predicate AllFragmentsValid(frags: map<string, Picture>)
  {
    forall q | q in frags :: frags[q].Valid()
  }

  /**
   * `stitch_tile` on fragment pictures keyed by token, `first` being
   * `list(tile)[0]`.  Every quadrant fragment fits the tile.
   */
  function AssembleTile(frags: map<string, Picture>, first: string): (t: Picture)
    requires first in frags && AllFragmentsValid(frags)
    ensures t.Valid()
    ensures forall q | q in {NW, NE, SE, SW} && q in frags :: frags[q].width <= t.width && frags[q].height <= t.height
  {
    Assemble(Quadrant(frags, first, NW), Quadrant(frags, first, NE),
             Quadrant(frags, first, SE), Quadrant(frags, first, SW))
  }

  /** The condition of the verbose "Size mismatch" message, line 29. */
  predicate SizeMismatch(nw: Picture, ne: Picture, se: Picture, sw: Picture)
    ensures !SizeMismatch(nw, ne, se, sw) <==>
      ne.width == nw.width && se.width == nw.width && sw.width == nw.width &&
      ne.height == nw.height && se.height == nw.height && sw.height == nw.height
  {
    (nw.width, nw.height) != (ne.width, ne.height) ||
    (ne.width, ne.height) != (se.width, se.height) ||
    (se.width, se.height) != (sw.width, sw.height)
  }

  predicate SameSize(a: array2<Pixel>, b: array2<Pixel>)
  {
    a.Length0 == b.Length0 && a.Length1 == b.Length1
  }

  /**
   * `stitch_tile(source_dir, tile, verbose)`, with the fragments already
   * decoded: `frags` maps each recorded token to its image.  `mismatch` is
   * whether the "Size mismatch" message is printed.
   */
  method StitchTile(frags: map<string, array2<Pixel>>, first: string, verbose: bool)
    returns (tile: array2<Pixel>, mismatch: bool)
    requires first in frags
    ensures fresh(tile)
    ensures Snap(tile) == AssembleTile(SnapAll(frags), first)
    ensures mismatch == (verbose && SizeMismatch(
      Quadrant(SnapAll(frags), first, NW), Quadrant(SnapAll(frags), first, NE),
      Quadrant(SnapAll(frags), first, SE), Quadrant(SnapAll(frags), first, SW)))
  {
    var nw, ne, se, sw := ChooseQuadrants(frags, first);
    mismatch := verbose && (!SameSize(nw, ne) || !SameSize(ne, se) || !SameSize(se, sw));
    tile := PasteQuadrants(nw, ne, se, sw);
  }

  /** Lines 20-27: each quadrant's fragment, or a transparent blank the size of the first-recorded one. */
  method ChooseQuadrants(frags: map<string, array2<Pixel>>, first: string)
    returns (nw: array2<Pixel>, ne: array2<Pixel>, se: array2<Pixel>, sw: array2<Pixel>)
    requires first in frags
    ensures Snap(nw) == Quadrant(SnapAll(frags), first, NW) && Snap(ne) == Quadrant(SnapAll(frags), first, NE)
    ensures Snap(se) == Quadrant(SnapAll(frags), first, SE) && Snap(sw) == Quadrant(SnapAll(frags), first, SW)
  {
    var sample := frags[first];
    var blank := NewImage(sample.Length0, sample.Length1, Transparent);

    nw := if NW in frags then frags[NW] else blank;
    ne := if NE in frags then frags[NE] else blank;
    se := if SE in frags then frags[SE] else blank;
    sw := if SW in frags then frags[SW] else blank;
    QuadrantSnap(frags, first, NW, blank);
    QuadrantSnap(frags, first, NE, blank);
    QuadrantSnap(frags, first, SE, blank);
    QuadrantSnap(frags, first, SW, blank);
  }

  /** The array chosen for quadrant q, lines 22-25, holds `Quadrant` of the fragment pictures. */
  lemma QuadrantSnap(frags: map<string, array2<Pixel>>, first: string, q: string, blank: array2<Pixel>)
    requires first in frags
    requires Snap(blank) == Filled(frags[first].Length0, frags[first].Length1, Transparent)
    ensures Snap(if q in frags then frags[q] else blank) == Quadrant(SnapAll(frags), first, q)
  {
  }

  /** Lines 32-44: size the canvas, fill it yellow and make the seven pastes. */
  method PasteQuadrants(nw: array2<Pixel>, ne: array2<Pixel>, se: array2<Pixel>, sw: array2<Pixel>)
    returns (tile: array2<Pixel>)
    ensures fresh(tile)
    ensures Snap(tile) == Assemble(Snap(nw), Snap(ne), Snap(se), Snap(sw))
  {
    ghost var pnw, pne, pse, psw := Snap(nw), Snap(ne), Snap(se), Snap(sw);
    var w := Max4(nw.Length0 + ne.Length0, sw.Length0 + se.Length0, nw.Length0 + se.Length0, sw.Length0 + ne.Length0);
    var h := Max4(nw.Length1 + sw.Length1, ne.Length1 + se.Length1, nw.Length1 + se.Length1, sw.Length1 + ne.Length1);
    tile := NewImage(w, h, Yellow);
    ghost var ls := TileLayers(pnw, pne, pse, psw);
    RenderNothing(Yellow, w, h);
    FlushPass(tile, nw, ne, se, sw);
    QuarterPass(tile, nw, ne, se, sw);
    assert ls[..7] == ls;
  }

  /** A canvas of the size `stitch_tile` computes for these quadrants, distinct from each of them. */
  ghost predicate CanvasFor(tile: array2<Pixel>, nw: array2<Pixel>, ne: array2<Pixel>, se: array2<Pixel>, sw: array2<Pixel>)
    reads nw, ne, se, sw
  {
    tile != nw && tile != ne && tile != se && tile != sw &&
    tile.Length0 == CanvasWidth(Snap(nw), Snap(ne), Snap(se), Snap(sw)) &&
    tile.Length1 == CanvasHeight(Snap(nw), Snap(ne), Snap(se), Snap(sw))
  }

  /** Lines 37-39: ne, se and sw flush with the right and bottom edges. */
  method FlushPass(tile: array2<Pixel>, nw: array2<Pixel>, ne: array2<Pixel>, se: array2<Pixel>, sw: array2<Pixel>)
    requires CanvasFor(tile, nw, ne, se, sw)
    requires Snap(tile) == Render([], Yellow, tile.Length0, tile.Length1)
    modifies tile
    ensures Snap(tile) == Render(TileLayers(Snap(nw), Snap(ne), Snap(se), Snap(sw))[..3], Yellow, tile.Length0, tile.Length1)
  {
    ghost var ls := TileLayers(Snap(nw), Snap(ne), Snap(se), Snap(sw));
    var w, h := tile.Length0, tile.Length1;
    assert ls[..0] == [];
    PasteLayer(tile, ne, w - ne.Length0, 0, ls, 0, Yellow);
    PasteLayer(tile, se, w - se.Length0, h - se.Length1, ls, 1, Yellow);
    PasteLayer(tile, sw, 0, h - sw.Length1, ls, 2, Yellow);
  }

  /** Lines 41-44: the four quadrants at the quarter points, over the first pass. */
  method QuarterPass(tile: array2<Pixel>, nw: array2<Pixel>, ne: array2<Pixel>, se: array2<Pixel>, sw: array2<Pixel>)
    requires CanvasFor(tile, nw, ne, se, sw)
    requires Snap(tile) == Render(TileLayers(Snap(nw), Snap(ne), Snap(se), Snap(sw))[..3], Yellow, tile.Length0, tile.Length1)
    modifies tile
    ensures Snap(tile) == Render(TileLayers(Snap(nw), Snap(ne), Snap(se), Snap(sw)), Yellow, tile.Length0, tile.Length1)
  {
    ghost var ls := TileLayers(Snap(nw), Snap(ne), Snap(se), Snap(sw));
    var w, h := tile.Length0, tile.Length1;
    PasteLayer(tile, nw, 0, 0, ls, 3, Yellow);
    PasteLayer(tile, ne, w / 2, 0, ls, 4, Yellow);
    PasteLayer(tile, se, w / 2, h / 2, ls, 5, Yellow);
    PasteLayer(tile, sw, 0, h / 2, ls, 6, Yellow);
    assert ls[..7] == ls;
  }

  /** Four pictures of the one size w by h. */
  ghost predicate AllSized(nw: Picture, ne: Picture, se: Picture, sw: Picture, w: nat, h: nat)
  {
    ValidQuadrants(nw, ne, se, sw) &&
    nw.width == w && ne.width == w && se.width == w && sw.width == w &&
    nw.height == h && ne.height == h && se.height == h && sw.height == h
  }

  /** Pixel (x, y) of the four quadrants laid edge to edge as a 2w by 2h picture. */
  function QuarterPixel(nw: Picture, ne: Picture, se: Picture, sw: Picture, w: nat, h: nat, x: int, y: int): Pixel
    requires AllSized(nw, ne, se, sw, w, h) && 0 <= x < 2 * w && 0 <= y < 2 * h
  {
    if x < w && y < h then nw.At(x, y)
    else if y < h then ne.At(x - w, y)
    else if x < w then sw.At(x, y - h)
    else se.At(x - w, y - h)
  }

  /**
   * With four quadrants of one size the tile is exactly twice as wide and
   * twice as tall, each quadrant lands in its own quarter, and the yellow
   * fill shows nowhere.
   */
  lemma EqualQuadrantsAssemble(nw: Picture, ne: Picture, se: Picture, sw: Picture, w: nat, h: nat)
    requires AllSized(nw, ne, se, sw, w, h)
    ensures Assemble(nw, ne, se, sw).width == 2 * w && Assemble(nw, ne, se, sw).height == 2 * h
    ensures forall x, y | 0 <= x < 2 * w && 0 <= y < 2 * h ::
      Assemble(nw, ne, se, sw).At(x, y) == QuarterPixel(nw, ne, se, sw, w, h, x, y)
  {
    var ls := TileLayers(nw, ne, se, sw);
    var t := Assemble(nw, ne, se, sw);
    assert CanvasWidth(nw, ne, se, sw) == 2 * w && CanvasHeight(nw, ne, se, sw) == 2 * h;
    assert ls[3] == Layer(nw, 0, 0) && ls[4] == Layer(ne, w, 0);
    assert ls[5] == Layer(se, w, h) && ls[6] == Layer(sw, 0, h);
    forall x, y | 0 <= x < 2 * w && 0 <= y < 2 * h
      ensures t.At(x, y) == QuarterPixel(nw, ne, se, sw, w, h, x, y)
    {
      var k := if x < w && y < h then 3 else if y < h then 4 else if x < w then 6 else 5;
      CompositeTop(ls, Yellow, x, y, k);
    }
  }

  /**
   * Wherever one of the quarter-point pastes of lines 41-44 reaches, the
   * first pass (lines 37-39) and the fill make no difference.
   */
  lemma QuarterPassWins(nw: Picture, ne: Picture, se: Picture, sw: Picture, x: int, y: int, j: nat)
    requires ValidQuadrants(nw, ne, se, sw)
    requires 3 <= j < 7 && TileLayers(nw, ne, se, sw)[j].Covers(x, y)
    requires Assemble(nw, ne, se, sw).InBounds(x, y)
    ensures forall bg: Pixel :: Assemble(nw, ne, se, sw).At(x, y) == Composite(TileLayers(nw, ne, se, sw)[3..], bg, x, y)
  {
    var ls := TileLayers(nw, ne, se, sw);
    assert ls == ls[..3] + ls[3..];
    forall bg: Pixel
      ensures Composite(ls, Yellow, x, y) == Composite(ls[3..], bg, x, y)
    {
      CompositeLaterWins(ls[..3], ls[3..], Yellow, bg, x, y, j - 3);
    }
  }

  /** A pixel that none of the seven pastes reaches stays yellow. */
  lemma UnpastedPixelsStayYellow(nw: Picture, ne: Picture, se: Picture, sw: Picture, x: int, y: int)
    requires ValidQuadrants(nw, ne, se, sw) && Assemble(nw, ne, se, sw).InBounds(x, y)
    requires forall l | l in TileLayers(nw, ne, se, sw) :: !l.Covers(x, y)
    ensures Assemble(nw, ne, se, sw).At(x, y) == Yellow
  {
    var ls := TileLayers(nw, ne, se, sw);
    assert forall j | 0 <= j < |ls| :: ls[j] in ls;
    CompositeUncovered(ls, Yellow, x, y);
  }

  /** Every recorded fragment has the size of the first-recorded one. */
  ghost predicate UniformFragments(frags: map<string, Picture>, first: string)
    requires first in frags
  {
    AllFragmentsValid(frags) &&
    forall q | q in frags :: frags[q].width == frags[first].width && frags[q].height == frags[first].height
  }

  /**
   * `stitch_tile` on fragments of one size w by h: a 2w by 2h tile whose
   * quarters hold the nw, ne, sw and se fragments, a missing one showing as
   * transparent.
   */
  lemma AssembledQuarters(frags: map<string, Picture>, first: string)
    requires first in frags && UniformFragments(frags, first)
    ensures var w, h := frags[first].width, frags[first].height;
      var t := AssembleTile(frags, first);
      t.width == 2 * w && t.height == 2 * h &&
      forall x, y | 0 <= x < 2 * w && 0 <= y < 2 * h ::
        t.At(x, y) == QuarterPixel(Quadrant(frags, first, NW), Quadrant(frags, first, NE),
                                   Quadrant(frags, first, SE), Quadrant(frags, first, SW), w, h, x, y)
  {
    var w, h := frags[first].width, frags[first].height;
    EqualQuadrantsAssemble(Quadrant(frags, first, NW), Quadrant(frags, first, NE),
                           Quadrant(frags, first, SE), Quadrant(frags, first, SW), w, h);
  }

  /**
   * With fragments of one size w by h, the quarter of a missing quadrant is
   * transparent: pixel (u, v) of that quarter comes from the blank.
   */
  lemma MissingQuarterIsTransparent(frags: map<string, Picture>, first: string, q: string, u: int, v: int)
    requires first in frags && UniformFragments(frags, first)
    requires (q == NW || q == NE || q == SE || q == SW) && q !in frags
    requires 0 <= u < frags[first].width && 0 <= v < frags[first].height
    ensures var w, h := frags[first].width, frags[first].height;
      var x := if q == NE || q == SE then w + u else u;
      var y := if q == SE || q == SW then h + v else v;
      AssembleTile(frags, first).InBounds(x, y) && AssembleTile(frags, first).At(x, y) == Transparent
  {
    AssembledQuarters(frags, first);
  }

  /**
   * A tile none of whose fragments is named nw, ne, se or sw is assembled
   * from four blanks: twice the size of its first fragment, all transparent.
   */
  lemma NoQuadrantTokensGiveBlankTile(frags: map<string, Picture>, first: string)
    requires first in frags && AllFragmentsValid(frags)
    requires NW !in frags && NE !in frags && SE !in frags && SW !in frags
    ensures var t := AssembleTile(frags, first);
      t.width == 2 * frags[first].width && t.height == 2 * frags[first].height &&
      forall x, y | t.InBounds(x, y) :: t.At(x, y) == Transparent
  {
    var w, h := frags[first].width, frags[first].height;
    var b := Filled(w, h, Transparent);
    EqualQuadrantsAssemble(b, b, b, b, w, h);
  }
}
