/**
 * Pixel grids as PIL holds them, and PIL's `Image.paste(im, (x, y))` without a
 * mask: a rectangle copy clipped to the destination.
 *
 * Arrays are indexed `a[x, y]`: `a.Length0` is the image width, `a.Length1`
 * its height.  A `Picture` is the value of an image, and `Composite` says what
 * a canvas shows after a sequence of pastes onto a uniform fill.
 */
module Raster {

  /** An RGBA pixel; the channels are carried as opaque values. */
  datatype Pixel = Rgba(r: int, g: int, b: int, a: int)

  /** The colour of `Image.new('RGBA', size, (0, 0, 0, 0))`. */
  const Transparent := Rgba(0, 0, 0, 0)

  /** The opaque yellow a tile canvas is filled with before any paste. */
  const Yellow := Rgba(255, 255, 0, 255)

  /** The value of an image: `cols[x][y]` is the pixel in column x, row y. */
  datatype Picture = Picture(width: nat, height: nat, cols: seq<seq<Pixel>>)
  {
    predicate Valid()
    {
      |cols| == width && forall x | 0 <= x < width :: |cols[x]| == height
    }

    predicate InBounds(x: int, y: int)
    {
      0 <= x < width && 0 <= y < height
    }

    function At(x: int, y: int): Pixel
      requires Valid() && InBounds(x, y)
    {
      cols[x][y]
    }
  }

  /** A `w` by `h` picture of one colour, as `Image.new` makes it. */
  function Filled(w: nat, h: nat, p: Pixel): (r: Picture)
    ensures r.Valid() && r.width == w && r.height == h
    ensures forall x, y | r.InBounds(x, y) :: r.At(x, y) == p
  {
    Picture(w, h, seq(w, _ => seq(h, _ => p)))
  }

  /** The current value of an image held in an array. */
  ghost function Snap(a: array2<Pixel>): (r: Picture)
    reads a
    ensures r.Valid() && r.width == a.Length0 && r.height == a.Length1
    ensures forall x, y | r.InBounds(x, y) :: r.At(x, y) == a[x, y]
  {
    Picture(a.Length0, a.Length1,
      seq(a.Length0, x requires 0 <= x < a.Length0 reads a =>
        seq(a.Length1, y requires 0 <= y < a.Length1 reads a => a[x, y])))
  }

  /** The current values of a map of images. */
  ghost function SnapAll<K>(m: map<K, array2<Pixel>>): (r: map<K, Picture>)
    reads m.Values
    ensures r.Keys == m.Keys
    ensures forall k | k in m :: r[k] == Snap(m[k])
  {
    map k | k in m :: Snap(m[k])
  }

  /** Two valid pictures of the same size that agree at every pixel are equal. */
  lemma PictureExt(p: Picture, q: Picture)
    requires p.Valid() && q.Valid() && p.width == q.width && p.height == q.height
    requires forall x, y | p.InBounds(x, y) :: p.At(x, y) == q.At(x, y)
    ensures p == q
  {
    forall x | 0 <= x < p.width
      ensures p.cols[x] == q.cols[x]
    {
      forall y | 0 <= y < p.height
        ensures p.cols[x][y] == q.cols[x][y]
      {
        assert p.At(x, y) == q.At(x, y);
      }
    }
  }

  /** One paste: picture `img` with its top-left corner at (x, y). */
  datatype Layer = Layer(img: Picture, x: int, y: int)
  {
    predicate Covers(px: int, py: int)
    {
      x <= px < x + img.width && y <= py < y + img.height
    }

    function PixelAt(px: int, py: int): Pixel
      requires img.Valid() && Covers(px, py)
    {
      img.At(px - x, py - y)
    }
  }

  predicate AllValid(ls: seq<Layer>)
  {
    forall i | 0 <= i < |ls| :: ls[i].img.Valid()
  }

  /** The index of the topmost layer covering (x, y), or -1 when none does. */
  function TopLayer(ls: seq<Layer>, x: int, y: int): (k: int)
    ensures -1 <= k < |ls|
    ensures k >= 0 ==> ls[k].Covers(x, y)
    ensures forall j | k < j < |ls| :: !ls[j].Covers(x, y)
    decreases |ls|
  {
    if |ls| == 0 then -1
    else if ls[|ls| - 1].Covers(x, y) then |ls| - 1
    else TopLayer(ls[..|ls| - 1], x, y)
  }

  /**
   * What pixel (x, y) of a canvas filled with `bg` shows after the pastes
   * `ls`, applied in order: the topmost covering layer wins, and a pixel
   * no layer covers keeps the fill.
   */
  function Composite(ls: seq<Layer>, bg: Pixel, x: int, y: int): (c: Pixel)
    requires AllValid(ls)
    ensures var k := TopLayer(ls, x, y); c == if k >= 0 then ls[k].PixelAt(x, y) else bg
    decreases |ls|
  {
    if |ls| == 0 then bg
    else if ls[|ls| - 1].Covers(x, y) then ls[|ls| - 1].PixelAt(x, y)
    else
      var init := ls[..|ls| - 1];
      assert forall j | 0 <= j < |init| :: init[j] == ls[j];
      Composite(init, bg, x, y)
  }

  /** A pixel that the layer at index k covers, and no later layer does, shows layer k. */
  lemma CompositeTop(ls: seq<Layer>, bg: Pixel, x: int, y: int, k: int)
    requires AllValid(ls) && 0 <= k < |ls| && ls[k].Covers(x, y)
    requires forall j | k < j < |ls| :: !ls[j].Covers(x, y)
    ensures Composite(ls, bg, x, y) == ls[k].PixelAt(x, y)
  {
  }

  /** A pixel that no layer covers keeps the fill colour. */
  lemma CompositeUncovered(ls: seq<Layer>, bg: Pixel, x: int, y: int)
    requires AllValid(ls)
    requires forall j | 0 <= j < |ls| :: !ls[j].Covers(x, y)
    ensures Composite(ls, bg, x, y) == bg
  {
  }

  /**
   * Later pastes overwrite earlier ones: where some layer of `b` covers the
   * pixel, pasting `a` first makes no difference, whatever the fill.
   */
  lemma CompositeLaterWins(a: seq<Layer>, b: seq<Layer>, bg: Pixel, bg': Pixel, x: int, y: int, j: int)
    requires AllValid(a + b)
    requires 0 <= j < |b| && b[j].Covers(x, y)
    ensures AllValid(b)
    ensures Composite(a + b, bg, x, y) == Composite(b, bg', x, y)
  {
    var ab := a + b;
    assert forall i | 0 <= i < |b| :: b[i] == ab[|a| + i];
    var k := TopLayer(ab, x, y);
    assert ab[|a| + j].Covers(x, y);
    assert k >= |a| + j;
    CompositeTop(b, bg', x, y, k - |a|);
    CompositeTop(ab, bg, x, y, k);
  }

  /** No pixel is covered by two different layers. */
  ghost predicate PairwiseDisjoint(ls: seq<Layer>)
  {
    forall i, j, x, y | 0 <= i < |ls| && 0 <= j < |ls| && i != j && ls[i].Covers(x, y) :: !ls[j].Covers(x, y)
  }

  /** With disjoint layers the order of the pastes does not matter: each pixel shows its one covering layer. */
  lemma CompositeOfDisjoint(ls: seq<Layer>, bg: Pixel, x: int, y: int, i: int)
    requires AllValid(ls) && PairwiseDisjoint(ls)
    requires 0 <= i < |ls| && ls[i].Covers(x, y)
    ensures Composite(ls, bg, x, y) == ls[i].PixelAt(x, y)
  {
    CompositeTop(ls, bg, x, y, i);
  }

  /** The `w` by `h` canvas obtained by pasting `ls` in order onto a fill of `bg`. */
  function Render(ls: seq<Layer>, bg: Pixel, w: nat, h: nat): (r: Picture)
    requires AllValid(ls)
    ensures r.Valid() && r.width == w && r.height == h
    ensures forall x, y | r.InBounds(x, y) :: r.At(x, y) == Composite(ls, bg, x, y)
  {
    Picture(w, h, seq(w, x => seq(h, y => Composite(ls, bg, x, y))))
  }

  /** A canvas with no paste yet is its fill colour. */
  lemma RenderNothing(bg: Pixel, w: nat, h: nat)
    ensures Render([], bg, w, h) == Filled(w, h, bg)
  {
    PictureExt(Render([], bg, w, h), Filled(w, h, bg));
  }

  /** `Image.new(mode, (w, h), p)`: a fresh w by h image of colour p. */
  method NewImage(w: nat, h: nat, p: Pixel) returns (a: array2<Pixel>)
    ensures fresh(a)
    ensures Snap(a) == Filled(w, h, p)
  {
    a := new Pixel[w, h]((_, _) => p);
    PictureExt(Snap(a), Filled(w, h, p));
  }

  /** The value of `dst` after `dst.paste(src, (ox, oy))`. */
  function PasteOnto(dst: Picture, src: Picture, ox: int, oy: int): (r: Picture)
    requires dst.Valid() && src.Valid()
    ensures r.Valid() && r.width == dst.width && r.height == dst.height
    ensures forall x, y | r.InBounds(x, y) ::
      r.At(x, y) == if Layer(src, ox, oy).Covers(x, y) then src.At(x - ox, y - oy) else dst.At(x, y)
  {
    Picture(dst.width, dst.height, seq(dst.width, x requires 0 <= x < dst.width =>
      seq(dst.height, y requires 0 <= y < dst.height =>
        if Layer(src, ox, oy).Covers(x, y) then src.At(x - ox, y - oy) else dst.At(x, y))))
  }

  /** Pasting one more layer onto a rendered canvas renders the longer sequence of pastes. */
  lemma PasteRenders(ls: seq<Layer>, l: Layer, bg: Pixel, w: nat, h: nat)
    requires AllValid(ls) && l.img.Valid()
    ensures AllValid(ls + [l])
    ensures PasteOnto(Render(ls, bg, w, h), l.img, l.x, l.y) == Render(ls + [l], bg, w, h)
  {
    var ls' := ls + [l];
    assert ls'[..|ls|] == ls;
    assert AllValid(ls');
    var p := PasteOnto(Render(ls, bg, w, h), l.img, l.x, l.y);
    var q := Render(ls', bg, w, h);
    forall x, y | p.InBounds(x, y)
      ensures p.At(x, y) == q.At(x, y)
    {
    }
    PictureExt(p, q);
  }

  function Max(a: int, b: int): int { if a < b then b else a }
  function Min(a: int, b: int): int { if a < b then a else b }

  /**
   * PIL's `dst.paste(src, (ox, oy))`: the pixels of `src` are copied to the
   * rectangle at (ox, oy), clipped to `dst`; every other pixel is kept.
   */
  method Paste(dst: array2<Pixel>, src: array2<Pixel>, ox: int, oy: int)
    requires dst != src
    modifies dst
    ensures Snap(dst) == PasteOnto(old(Snap(dst)), Snap(src), ox, oy)
  {
    ghost var before := Snap(dst);
    var xs := Max(ox, 0);
    var xe := Max(xs, Min(ox + src.Length0, dst.Length0));
    for x := xs to xe
      invariant PastedUpTo(dst, src, ox, oy, x, before)
    {
      PasteColumn(dst, src, ox, oy, x, before);
    }
    PictureExt(Snap(dst), PasteOnto(before, Snap(src), ox, oy));
  }

  /** Every column of `src` left of column `x` of `dst` is pasted; every other pixel is as in `before`. */
  ghost predicate PastedUpTo(dst: array2<Pixel>, src: array2<Pixel>, ox: int, oy: int, x: int, before: Picture)
    reads dst, src
  {
    && before.Valid() && before.width == dst.Length0 && before.height == dst.Length1
    && forall i, j | 0 <= i < dst.Length0 && 0 <= j < dst.Length1 ::
      dst[i, j] == if ox <= i < ox + src.Length0 && oy <= j < oy + src.Length1 && i < x
                   then src[i - ox, j - oy] else before.At(i, j)
  }

  /** One pass of the inner loop: column `x` of the pasted rectangle. */
  method PasteColumn(dst: array2<Pixel>, src: array2<Pixel>, ox: int, oy: int, x: int, ghost before: Picture)
    requires dst != src && 0 <= x < dst.Length0 && ox <= x < ox + src.Length0
    requires PastedUpTo(dst, src, ox, oy, x, before)
    modifies dst
    ensures PastedUpTo(dst, src, ox, oy, x + 1, before)
  {
    var ys := Max(oy, 0);
    var ye := Max(ys, Min(oy + src.Length1, dst.Length1));
    for y := ys to ye
      invariant forall i, j | 0 <= i < dst.Length0 && 0 <= j < dst.Length1 ::
        dst[i, j] == if ox <= i < ox + src.Length0 && oy <= j < oy + src.Length1 && (i < x || (i == x && j < y))
                     then src[i - ox, j - oy] else before.At(i, j)
    {
      dst[x, y] := src[x - ox, y - oy];
    }
  }

  /** `Paste` as step k of the pastes `ls`: a canvas showing the first k shows the first k + 1. */
  method PasteLayer(dst: array2<Pixel>, src: array2<Pixel>, ox: int, oy: int, ghost ls: seq<Layer>, ghost k: nat, ghost bg: Pixel)
    requires dst != src && AllValid(ls) && k < |ls| && ls[k] == Layer(Snap(src), ox, oy)
    requires Snap(dst) == Render(ls[..k], bg, dst.Length0, dst.Length1)
    modifies dst
    ensures Snap(dst) == Render(ls[..k + 1], bg, dst.Length0, dst.Length1)
  {
    Paste(dst, src, ox, oy);
    assert ls[..k] + [ls[k]] == ls[..k + 1];
    PasteRenders(ls[..k], ls[k], bg, dst.Length0, dst.Length1);
  }
}
