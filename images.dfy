/** Tile images as row-major grids of opaque pixels, and the array
    operations the root tile is built from: side-by-side and top-to-bottom
    stacking, and keeping every other row and column. */
module Images {

  /** An image: a sequence of rows, each a sequence of pixels. */
  type Image<Px> = seq<seq<Px>>

  /** `img` has `h` rows of `w` pixels each. */
  predicate IsRect<Px>(img: Image<Px>, h: nat, w: nat)
  {
    |img| == h && forall i :: 0 <= i < h ==> |img[i]| == w
  }

  /** Side-by-side stacking: row `i` of the result is row `i` of `a`
      followed by row `i` of `b`. Both inputs need the same number of rows. */
  function HStack<Px>(a: Image<Px>, b: Image<Px>): (r: Image<Px>)
    requires |a| == |b|
    ensures |r| == |a|
    ensures forall i :: 0 <= i < |r| ==> r[i] == a[i] + b[i]
    ensures forall h: nat, wa: nat, wb: nat :: IsRect(a, h, wa) && IsRect(b, h, wb) ==> IsRect(r, h, wa + wb)
  {
    seq(|a|, i requires 0 <= i < |a| => a[i] + b[i])
  }

  /** Top-to-bottom stacking: the rows of `a`, then the rows of `b`. */
  function VStack<Px>(a: Image<Px>, b: Image<Px>): (r: Image<Px>)
    ensures |r| == |a| + |b|
    ensures forall i :: 0 <= i < |a| ==> r[i] == a[i]
    ensures forall i :: 0 <= i < |b| ==> r[|a| + i] == b[i]
  {
    a + b
  }

  /** Elements at even positions: `s[::2]`. */
  function EveryOther<T>(s: seq<T>): (r: seq<T>)
    ensures |r| == (|s| + 1) / 2
    ensures forall i :: 0 <= i < |r| ==> 2 * i < |s| && r[i] == s[2 * i]
    decreases |s|
  {
    if |s| <= 1 then s else [s[0]] + EveryOther(s[2..])
  }

  /** Every other row and every other column: `img[::2, ::2]`. */
  function Decimate<Px>(img: Image<Px>): (r: Image<Px>)
    ensures |r| == (|img| + 1) / 2
    ensures forall i :: 0 <= i < |r| ==> r[i] == EveryOther(img[2 * i])
  {
    var rows := EveryOther(img);
    seq(|rows|, i requires 0 <= i < |rows| => EveryOther(rows[i]))
  }

  /** The 2x2 mosaic: `tl` beside `tr` above `bl` beside `br`. */
  function Composite<Px>(tl: Image<Px>, tr: Image<Px>, bl: Image<Px>, br: Image<Px>): Image<Px>
    requires |tl| == |tr| && |bl| == |br|
  {
    VStack(HStack(tl, tr), HStack(bl, br))
  }

  /** The depth-0 tile: the 2x2 mosaic of the four depth-1 tiles, halved
      by keeping every other row and column. */
  function RootImage<Px>(tl: Image<Px>, tr: Image<Px>, bl: Image<Px>, br: Image<Px>): Image<Px>
    requires |tl| == |tr| && |bl| == |br|
  {
    Decimate(Composite(tl, tr, bl, br))
  }

  /** The pixel of the mosaic of four `s` x `s` images at row `i`, column
      `j`, read from the quadrant it falls in. */
  function MosaicPixel<Px>(tl: Image<Px>, tr: Image<Px>, bl: Image<Px>, br: Image<Px>, s: nat, i: nat, j: nat): Px
    requires IsRect(tl, s, s) && IsRect(tr, s, s) && IsRect(bl, s, s) && IsRect(br, s, s)
    requires i < 2 * s && j < 2 * s
  {
    if i < s && j < s then tl[i][j]
    else if i < s then tr[i][j - s]
    else if j < s then bl[i - s][j]
    else br[i - s][j - s]
  }

  /** The mosaic of four `s` x `s` images is `2s` x `2s`, with each image
      in its quadrant. */
  lemma CompositePixels<Px>(tl: Image<Px>, tr: Image<Px>, bl: Image<Px>, br: Image<Px>, s: nat)
    requires IsRect(tl, s, s) && IsRect(tr, s, s) && IsRect(bl, s, s) && IsRect(br, s, s)
    ensures IsRect(Composite(tl, tr, bl, br), 2 * s, 2 * s)
    ensures forall i, j :: 0 <= i < 2 * s && 0 <= j < 2 * s ==>
      Composite(tl, tr, bl, br)[i][j] == MosaicPixel(tl, tr, bl, br, s, i, j)
  {
    var top, bottom := HStack(tl, tr), HStack(bl, br);
    var m := Composite(tl, tr, bl, br);
    forall i, j | 0 <= i < 2 * s && 0 <= j < 2 * s
      ensures m[i][j] == MosaicPixel(tl, tr, bl, br, s, i, j)
    {
      if i < s {
        assert m[i] == tl[i] + tr[i];
      } else {
        assert m[i] == bottom[i - s] == bl[i - s] + br[i - s];
      }
    }
  }

  /** The root tile built from four `s` x `s` depth-1 tiles is again
      `s` x `s`, and its pixel (i, j) is the mosaic's pixel (2i, 2j): the
      top-left quarter of the root comes from `tl`, and so on. */
  lemma {:induction false} RootPixels<Px>(tl: Image<Px>, tr: Image<Px>, bl: Image<Px>, br: Image<Px>, s: nat)
    requires IsRect(tl, s, s) && IsRect(tr, s, s) && IsRect(bl, s, s) && IsRect(br, s, s)
    ensures IsRect(RootImage(tl, tr, bl, br), s, s)
    ensures forall i, j :: 0 <= i < s && 0 <= j < s ==>
      RootImage(tl, tr, bl, br)[i][j] == MosaicPixel(tl, tr, bl, br, s, 2 * i, 2 * j)
  {
    var m := Composite(tl, tr, bl, br);
    CompositePixels(tl, tr, bl, br, s);
    var r := Decimate(m);
    assert |r| == s;
    forall i | 0 <= i < s
      ensures |r[i]| == s
      ensures forall j :: 0 <= j < s ==> r[i][j] == MosaicPixel(tl, tr, bl, br, s, 2 * i, 2 * j)
    {
      assert r[i] == EveryOther(m[2 * i]);
      assert |m[2 * i]| == 2 * s;
    }
  }

  /** With pixel map `f`, every pixel of `img` is replaced by its image. */
  function MapPixels<Px, Qx>(img: Image<Px>, f: Px -> Qx): (r: Image<Qx>)
    ensures |r| == |img|
    ensures forall i :: 0 <= i < |r| ==> |r[i]| == |img[i]| && forall j :: 0 <= j < |r[i]| ==> r[i][j] == f(img[i][j])
  {
    seq(|img|, i requires 0 <= i < |img| => seq(|img[i]|, j requires 0 <= j < |img[i]| => f(img[i][j])))
  }

  lemma MapPixelsRect<Px, Qx>(img: Image<Px>, f: Px -> Qx, h: nat, w: nat)
    requires IsRect(img, h, w)
    ensures IsRect(MapPixels(img, f), h, w)
  {
  }

  /** The mosaic of the mapped images holds the mapped pixel. */
  lemma MosaicOfMapped<Px, Qx>(tl: Image<Px>, tr: Image<Px>, bl: Image<Px>, br: Image<Px>, s: nat, f: Px -> Qx, i: nat, j: nat)
    requires IsRect(tl, s, s) && IsRect(tr, s, s) && IsRect(bl, s, s) && IsRect(br, s, s)
    requires i < 2 * s && j < 2 * s
    ensures IsRect(MapPixels(tl, f), s, s) && IsRect(MapPixels(tr, f), s, s)
    ensures IsRect(MapPixels(bl, f), s, s) && IsRect(MapPixels(br, f), s, s)
    ensures MosaicPixel(MapPixels(tl, f), MapPixels(tr, f), MapPixels(bl, f), MapPixels(br, f), s, i, j)
         == f(MosaicPixel(tl, tr, bl, br, s, i, j))
  {
    MapPixelsRect(tl, f, s, s);
    MapPixelsRect(tr, f, s, s);
    MapPixelsRect(bl, f, s, s);
    MapPixelsRect(br, f, s, s);
  }

  /** Building the root commutes with any pixel-wise map: mapping the four
      depth-1 tiles first and building the root from them gives the map of
      the root built from the originals. */
  lemma {:induction false} RootCommutesWithPixelMap<Px, Qx>(tl: Image<Px>, tr: Image<Px>, bl: Image<Px>, br: Image<Px>, s: nat, f: Px -> Qx)
    requires IsRect(tl, s, s) && IsRect(tr, s, s) && IsRect(bl, s, s) && IsRect(br, s, s)
    ensures RootImage(MapPixels(tl, f), MapPixels(tr, f), MapPixels(bl, f), MapPixels(br, f))
         == MapPixels(RootImage(tl, tr, bl, br), f)
  {
    var ftl, ftr, fbl, fbr := MapPixels(tl, f), MapPixels(tr, f), MapPixels(bl, f), MapPixels(br, f);
    MapPixelsRect(tl, f, s, s);
    MapPixelsRect(tr, f, s, s);
    MapPixelsRect(bl, f, s, s);
    MapPixelsRect(br, f, s, s);
    var root := RootImage(tl, tr, bl, br);
    var lhs := RootImage(ftl, ftr, fbl, fbr);
    var rhs := MapPixels(root, f);
    RootPixels(tl, tr, bl, br, s);
    RootPixels(ftl, ftr, fbl, fbr, s);
    forall i | 0 <= i < s
      ensures lhs[i] == rhs[i]
    {
      forall j | 0 <= j < s
        ensures lhs[i][j] == rhs[i][j]
      {
        MosaicOfMapped(tl, tr, bl, br, s, f, 2 * i, 2 * j);
      }
    }
  }
}
