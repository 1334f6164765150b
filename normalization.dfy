/** Intensity scaling wrapped around a sampler: the wrapped sampler samples
    and then passes the raw values, with the scaling options, to the
    normalisation routine, which is a parameter here. */
module Normalization {
  import opened Quadtree
  import opened Images
  import opened Tiling

  /** The normalisation routine's signature: raw values, the values that map
      to black and white, bias, contrast and the name of the scaling. */
  type Normalize<!Raw, Out> = (Raw, real, real, real, real, string) -> Out

  /** The wrapped sampler. The defaults are a linear scaling, bias 0.5 and
      contrast 1; note that the routine takes bias and contrast before the
      scaling name, while the wrapper takes the scaling name first. */
  function Normalizer<G(!new), Raw, Out>(normalize: Normalize<Raw, Out>, sampler: G -> Raw, vmin: real, vmax: real,
                                   scaling: string := "linear", bias: real := 0.5, contrast: real := 1.0): (result: G -> Out)
    ensures forall g :: result(g) == normalize(sampler(g), vmin, vmax, bias, contrast, scaling)
  {
    g => normalize(sampler(g), vmin, vmax, bias, contrast, scaling)
  }

  /** The routine acts on each pixel alone, through `f`. */
  ghost predicate PixelWise<Px(!new), Qx>(normalize: Normalize<Image<Px>, Image<Qx>>, vmin: real, vmax: real,
                                    scaling: string, bias: real, contrast: real, f: Px -> Qx)
  {
    forall img :: normalize(img, vmin, vmax, bias, contrast, scaling) == MapPixels(img, f)
  }

  /** Every tile of depth 1 or more that the generator makes from the wrapped
      sampler is the normalisation of the tile it makes from the raw one. */
  lemma NormalizedTiles<P, G(!new), Px, Qx>(u: Util<P, G>, normalize: Normalize<Image<Px>, Image<Qx>>, sampler: G -> Image<Px>,
                                      vmin: real, vmax: real, scaling: string, bias: real, contrast: real, a: Address)
    requires a.n >= 1
    ensures TileImage(u, Normalizer(normalize, sampler, vmin, vmax, scaling, bias, contrast), a)
         == normalize(TileImage(u, sampler, a), vmin, vmax, bias, contrast, scaling)
  {
  }

  /** When the routine is pixel-wise, the depth-0 tile made from the wrapped
      sampler is the normalisation of the one made from the raw sampler,
      although it is built from already normalised depth-1 tiles. */
  lemma {:induction false} NormalizedRoot<P, G(!new), Px(!new), Qx>(u: Util<P, G>, normalize: Normalize<Image<Px>, Image<Qx>>,
                                      sampler: G -> Image<Px>, vmin: real, vmax: real, scaling: string, bias: real,
                                      contrast: real, f: Px -> Qx)
    requires forall g :: IsRect(sampler(g), TileSize, TileSize)
    requires PixelWise(normalize, vmin, vmax, scaling, bias, contrast, f)
    ensures forall g :: IsRect(Normalizer(normalize, sampler, vmin, vmax, scaling, bias, contrast)(g), TileSize, TileSize)
    ensures RootOf(u, Normalizer(normalize, sampler, vmin, vmax, scaling, bias, contrast))
         == MapPixels(RootOf(u, sampler), f)
  {
    var ns := Normalizer(normalize, sampler, vmin, vmax, scaling, bias, contrast);
    forall g
      ensures IsRect(ns(g), TileSize, TileSize)
    {
      MapPixelsRect(sampler(g), f, TileSize, TileSize);
    }
    var tl, tr := TileImage(u, sampler, Address(1, 0, 0)), TileImage(u, sampler, Address(1, 1, 0));
    var bl, br := TileImage(u, sampler, Address(1, 0, 1)), TileImage(u, sampler, Address(1, 1, 1));
    assert TileImage(u, ns, Address(1, 0, 0)) == MapPixels(tl, f);
    assert TileImage(u, ns, Address(1, 1, 0)) == MapPixels(tr, f);
    assert TileImage(u, ns, Address(1, 0, 1)) == MapPixels(bl, f);
    assert TileImage(u, ns, Address(1, 1, 1)) == MapPixels(br, f);
    RootCommutesWithPixelMap(tl, tr, bl, br, TileSize, f);
  }
}
