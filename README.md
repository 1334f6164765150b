# TOAST tile generator, modelled in Dafny

toasty cuts an all-sky image into a TOAST tile pyramid. TOAST is the
Tessellated Octahedral Adaptive Subdivision Transform used by WorldWide
Telescope. The sky is split into four depth-1 tiles; each of them is two faces of an
octahedron seen from inside, so the four cover all eight faces. Each tile splits into four children again and
again, down to a requested depth. Each tile is sampled from the source map
on a 256 x 256 grid of sky positions and written to `{n}/{y}/{y}_{x}.png`.
The depth-0 tile is not sampled. It is built from the four depth-1 images:
they are laid out as a 2 x 2 mosaic, and every other row and column is kept.

The project models the tile generator in `toasty/tile.py` together with its
configuration checks:

- `quadtree.dfy` (`Quadtree`) covers tile addresses `(n, x, y)`, the
  quadrant split of an address and the "lies in the subtree of" relation. It
  also holds the partition invariant of the work list and the proofs that
  every step keeps it, along with the tile counts.
- `paths.dfy` (`TilePaths`) covers decimal formatting and the tile path
  `"{n}/{y}/{y}_{x}.png"`. It proves that distinct tiles get distinct paths.
- `geometry.dfy` (`Geometry`) covers the seed table of the four depth-1
  tiles, the quadrant split of a tile's corners (`_div4`) and the work-list
  entry for any address (`NodeAt`). It proves that the orientation flag is
  fixed per branch and that neighbouring tiles share their common edge at
  every depth.
- `images.dfy` (`Images`) covers images as grids of opaque pixels:
  side-by-side and top-to-bottom stacking, `[::2, ::2]` and the pixel
  formula of the depth-0 tile.
- `tiling.dfy` (`Tiling`) holds the generator itself. `Traverse` is the
  work-list loop: a sequence used as a stack, with the depth-1 buffer as a
  map. `IterTiles` adds the depth-0 tile.
- `samplers.dfy` (`Samplers`) covers the plate carree sampler's aspect check
  and index clamping, the HEALPix sampler's option checks in their order,
  and the search for the first HEALPix extension of a FITS file.
- `normalization.dfy` (`Normalization`) covers the intensity-scaling wrapper
  around a sampler.

Some of the machinery the source calls is not available, so the model takes
it as parameters:

- the great-circle midpoint `mid` and the sampling-grid builder
  `subsample` (`toasty/util.py` is not part of this model);
- the degree-to-radian conversion;
- the data sampler;
- the normalisation routine (`toasty/norm.py` is not part of this model).

The point type and the pixel types are type parameters.

## Model

| member | source | states |
|---|---|---|
| Quadtree.Children | toasty/tile.py:26-29 | The four child addresses come in the split's order, `(n+1, 2x+dx, 2y+dy)`. Each one's parent is the tile and its position is its index. The children of an in-bounds address are in bounds. |
| Quadtree.ChildOfParent | toasty/tile.py:26-29 | Every address below the root is the child of its parent at the position its parities give. |
| Quadtree.ParentInBounds | toasty/tile.py:26-29 | The parent of an in-bounds address is in bounds, so the split preserves `0 <= x, y < 2^n` read upwards. |
| Quadtree.TopAncestor | toasty/tile.py:52-55 | Every in-bounds address of depth 1 or more lies under one of the four seed addresses. |
| Quadtree.Expand | toasty/tile.py:59-72 | The work-list step on addresses: the last entry is popped, and its four children are pushed exactly when its depth is below the maximum. `PopStep` states what it preserves. |
| Quadtree.InitialPartition | toasty/tile.py:52-55 | The seeded work list, with nothing done, satisfies the traversal invariant: all in range, no repeats, nothing done inside a pending subtree, pending subtrees disjoint, every in-range address done or pending. All `4 * SubtreeSize(1, d)` tiles are pending. |
| Quadtree.PopStep | toasty/tile.py:58-72 | Popping the last entry and pushing its children exactly when it is above the maximum depth keeps the invariant and finishes exactly one pending tile. |
| Quadtree.FinalPartition | toasty/tile.py:58-72 | With the work list empty, the processed addresses are exactly the in-range ones. |
| Quadtree.SubtreeSizeClosedForm | toasty/tile.py:43-45 | A subtree over depths n..d holds 1 + 4 + ... + 4^(d-n) tiles: `3 * size + 1 == 4^(d-n+1)`. |
| Quadtree.TopBitsOfParent | toasty/tile.py:26-29 | An address and its parent have the same top bits of column and row, so they lie in the same depth-1 branch. |
| TilePaths.Decimal | toasty/tile.py:61 | The `'%i'` spelling is non-empty, all digits, and has no leading zero except for 0 itself. |
| TilePaths.TilePath | toasty/tile.py:61 | The path formula: the depth, the row and the file name `{y}_{x}.png`, joined by `/`. `TilePathInjective` and `PathParts` state its properties. |
| TilePaths.DecimalRoundTrip | toasty/tile.py:61 | Reading the decimal spelling back gives the number. |
| TilePaths.TilePathInjective | toasty/tile.py:61 | Equal paths `"{n}/{y}/{y}_{x}.png"` mean equal addresses. |
| TilePaths.TilePathExample | toasty/tile.py:61 | The depth-1 tile in column 0, row 1 is written to `1/1/1_0.png`. |
| TilePaths.RootPath | toasty/tile.py:78 | The root's path `0/0/0_0.png` is the path formula applied to `(0, 0, 0)`. |
| Geometry.Level1 | toasty/tile.py:11-16 | The seed table in degrees: four quads, each made of two octahedron faces. In each quad one pair of opposite corners are the two poles, and the other pair lie on the equator a quarter turn apart. |
| Geometry.Seeds | toasty/tile.py:52-55 | The initial work list holds seed row k at seed address k, with the flag set exactly on the two main-diagonal tiles (0,0) and (1,1). |
| Geometry.SeedSlot | toasty/tile.py:52-55 | The seed list places the depth-1 tile in column x, row y at the slot this function names. |
| Geometry.Div4 | toasty/tile.py:18-29 | Four children with the child addresses and the parent's flag. Each child keeps the parent corner it touches. Adjacent children share the edge midpoints `to`, `ri`, `bo`, `le`. All four meet at the centre, `mid(ll, ur)` when increasing and `mid(ul, lr)` otherwise. |
| Geometry.NodeAt | toasty/tile.py:52-72 | The entry the traversal builds for an address. At depth 1 it is the seed in that slot. Below that it is the matching child, in `_div4`, of the parent's entry. `NodeAtAddress`, `Div4NodeAt` and `FlagOfBranch` state its properties. |
| Geometry.NodeAtAddress | toasty/tile.py:52-72 | The entry the traversal builds for an in-bounds address carries that address. |
| Geometry.Div4NodeAt | toasty/tile.py:71-72 | Splitting the entry for an address gives the entries for its four children. |
| Geometry.FlagOfBranch | toasty/tile.py:52-55 | The flag of every tile equals the flag of its depth-1 ancestor: set exactly when the top bits of column and row agree. |
| Geometry.Level1Seams | toasty/tile.py:11-16 | Adjacent seed quads share their edges. The four meet at the north pole in the middle, and the south pole sits at all four outer corners. |
| Geometry.SeedDiagonals | toasty/tile.py:52-55 | Each seed's flag puts the centre on the diagonal whose ends are not antipodal, and every edge of the seed joins non-antipodal corners, so no midpoint is taken between antipodal points. The rejected diagonal joins the two poles, so the opposite flag would take such a midpoint on every seed. |
| Geometry.SplitKeepsVerticalSeam | toasty/tile.py:19-29 | For a symmetric `mid`, two tiles sharing a vertical edge split into children that share both halves of it. |
| Geometry.SplitKeepsHorizontalSeam | toasty/tile.py:19-29 | The same for a horizontal edge. |
| Geometry.NoVerticalSeams | toasty/tile.py:18-29 | At every depth, the tile at (n, x, y) and its in-bounds right-hand neighbour share their common edge, for a symmetric `mid`. |
| Geometry.NoHorizontalSeams | toasty/tile.py:18-29 | At every depth, the tile at (n, x, y) and its in-bounds lower neighbour share their common edge, for a symmetric `mid`. |
| Images.HStack | toasty/tile.py:75-76 | Row i of the result is row i of the left image followed by row i of the right one. Widths add up. |
| Images.VStack | toasty/tile.py:75-76 | The rows of the top image, then the rows of the bottom one. |
| Images.EveryOther | toasty/tile.py:77 | `s[::2]`: `(|s|+1)/2` elements, element i being `s[2i]`. |
| Images.Decimate | toasty/tile.py:77 | `img[::2, ::2]`: every other row, each cut to every other column. |
| Images.Composite | toasty/tile.py:75-76 | `vstack((hstack((tl, tr)), hstack((bl, br))))`, the 2 x 2 mosaic. `CompositePixels` states its shape and pixels. |
| Images.RootImage | toasty/tile.py:75-77 | The mosaic with every other row and column kept. `RootPixels` states its shape and pixels. |
| Images.CompositePixels | toasty/tile.py:75-76 | The mosaic of four s x s images is 2s x 2s: `(0,0)` top-left, `(1,0)` top-right, `(0,1)` bottom-left, `(1,1)` bottom-right. |
| Images.RootPixels | toasty/tile.py:74-79 | The root is s x s and its pixel (i, j) is the mosaic's pixel (2i, 2j). |
| Images.MapPixels | toasty/tile.py:243-246 | A pixel-wise map keeps the shape and maps each pixel. |
| Images.RootCommutesWithPixelMap | toasty/tile.py:74-79 | Building the root commutes with any pixel-wise map. |
| Tiling.TileImage | toasty/tile.py:63-64 | The image of the tile at an address: the sampler applied to the 256 x 256 grid built from that address's corners and flag. |
| Tiling.Reach | toasty/tile.py:71-72 | The deepest level processed is `depth` when it is at least 1, and 1 otherwise. |
| Tiling.SeedsFaithful | toasty/tile.py:52-55 | The seed entries are the traversal's entries for the four seed addresses. |
| Tiling.PopFaithful | toasty/tile.py:71-72 | Pushing the children of a popped entry keeps every work-list entry equal to the entry of its address. |
| Tiling.EmitStep | toasty/tile.py:68-69 | Yielding the popped tile's path and image, unless the depth is 0, keeps the output equal to the processed tiles in order. |
| Tiling.BufferStep | toasty/tile.py:65-66 | Storing a depth-1 image under `(x, y)` keeps the buffer equal to the processed depth-1 tiles' images. |
| Tiling.TraverseStep | toasty/tile.py:58-72 | One pass of the loop keeps the whole invariant and strictly decreases the pending count. |
| Tiling.Traverse | toasty/tile.py:52-72 | The loop processes each in-bounds address of depth 1 to `Reach(depth)` exactly once. It yields, in order, each one's path and image unless the depth is 0, and buffers every depth-1 image. `3 * processed + 4 == 4 * 4^Reach(depth)`. |
| Tiling.BufferedKeys | toasty/tile.py:65-66 | After the loop the buffer's keys are exactly (0,0), (1,0), (0,1) and (1,1), whatever the depth. |
| Tiling.RootOf | toasty/tile.py:74-77 | The depth-0 image built from the images of the four depth-1 tiles, each 256 x 256. |
| Tiling.BufferRoot | toasty/tile.py:74-77 | The depth-0 image built from the buffer: `lev1[(0,0)]`, `lev1[(1,0)]`, `lev1[(0,1)]` and `lev1[(1,1)]` as top-left, top-right, bottom-left and bottom-right. `BufferRootOf` ties it to `RootOf`. |
| Tiling.BufferRootOf | toasty/tile.py:74-77 | The root built from the buffer is the root of the four depth-1 images. |
| Tiling.PathsDistinct | toasty/tile.py:61 | The loop's yielded paths and the root's path are pairwise distinct. |
| Tiling.EmittedPaths | toasty/tests/test_toasty.py:17-24 | For depth >= 0, the yielded paths are exactly `{n}/{y}/{y}_{x}.png` for 0 <= n <= depth and 0 <= x, y < 2^n. |
| Tiling.RootAppended | toasty/tile.py:74-79 | After the loop's tiles comes the root tile. The paths are distinct and form the set of the tiles of depth 0 to `depth`. |
| Tiling.IterTiles | toasty/tile.py:32-79 | All of the above about the yielded sequence. The last tile is the root at `0/0/0_0.png`, built from the depth-1 images. For depth >= 1 there are 1 + 4 + ... + 4^depth tiles. For depth < 1 the four depth-1 tiles are still processed and buffered; they are yielded before the root unless depth is 0. |
| Samplers.Kind | toasty/tile.py:116 | The exception class of each error: ValueError for the aspect, interpolation and coordinate checks (lines 163, 166, 202). NotImplementedError for Galactic coordinates (line 170). IndexError when no HEALPix extension is found (line 116). |
| Samplers.Message | toasty/tile.py:163-170 | The message each error carries, as lines 116, 163-164, 166, 170 and 202 format it. The error contracts state which message each failure gives. |
| Samplers.CartesianSampler | toasty/tile.py:198-202 | The map is accepted iff it is exactly twice as wide as tall; otherwise a ValueError with the message `Map must be twice as wide as it is tall`. |
| Samplers.Clip | toasty/tile.py:208-210 | `np.clip` semantics: within `[lo, hi]` when `lo <= hi`, the identity inside, and `hi` wins when `lo > hi`. |
| Samplers.CartesianLookup | toasty/tile.py:204-211 | A lookup reads the pixel at the row and column clamped into the map. It fails (IndexError) iff the map is empty. |
| Samplers.LookupClamps | toasty/tile.py:208-211 | Indices left of or above the map read the first column or row, indices past it read the last, and indices inside read that pixel. |
| Samplers.CartesianSample | toasty/tile.py:204-211 | Sampling a grid looks up every grid point, in the grid's shape. It fails iff the map is empty and the grid has a point. |
| Samplers.Upper | toasty/tile.py:165 | Upper-casing maps each character and keeps the length. |
| Samplers.PiecesOfCG | toasty/tile.py:165 | The pieces of "CG" are exactly "", "C", "G" and "CG". |
| Samplers.HealpixSampler | toasty/tile.py:161-172 | The option checks as written: interpolation first, then the piece-of-"CG" test on the upper-cased coordinate, then the refusal of "G". `HealpixAsWritten` states what it accepts and refuses. |
| Samplers.HealpixDefaults | toasty/tile.py:136 | With the defaults (ring ordering, "C", "nearest") the options are valid. |
| Samplers.InterpolationCheckedFirst | toasty/tile.py:161-164 | An interpolation other than "nearest" or "bilinear" is a ValueError, whatever the coordinate system, with the message listing the two choices. |
| Samplers.HealpixAsWritten | toasty/tile.py:161-172 | With a valid interpolation, the options are accepted iff the upper-cased coordinate is "", "C" or "CG". "G" is NotImplementedError. Any other refused coordinate is a ValueError with the message `Invalid coord {coord}. Must be 'C' or 'G'`. Accepted options carry `nest` and whether interpolation is bilinear. |
| Samplers.HealpixAcceptsJunk | toasty/tile.py:165-166 | The coordinate strings "" and "cg" are accepted. |
| Samplers.HealpixSamplerFixed | toasty/tile.py:161-172 | The check as its error message states it: only "C" or "G", in either case; "G" not supported; everything else InvalidCoord. |
| Samplers.FixedRefusesJunk | toasty/tile.py:165-170 | The fixed check refuses "" and "cg" and agrees with the written one on every "C" or "G". |
| Samplers.FindExtension | toasty/tile.py:107-116 | Returns the index of the first HDU whose PIXTYPE is HEALPIX. It fails iff there is none, with an IndexError whose message names the file. |
| Normalization.Normalizer | toasty/tile.py:216-247 | The wrapped sampler returns the routine applied to the raw sample, vmin, vmax, bias, contrast and scaling, with defaults "linear", 0.5 and 1. |
| Normalization.NormalizedTiles | toasty/tile.py:243-246 | Every tile made from the wrapped sampler is the normalisation of the tile made from the raw one. |
| Normalization.NormalizedRoot | toasty/tile.py:243-246 | For a pixel-wise routine, the root made from the wrapped sampler is the pixel-wise map of the raw root. |

## Left out

- `mid`, `subsample` and `np.radians` are uninterpreted function parameters over an abstract point type. The seam lemmas assume only that `mid` is symmetric.
- The data sampler is an uninterpreted function from a sampling grid to an image.
- The floating-point lon/lat arithmetic in the plate carree sampler is not modelled: the wrapping modulo 2π, the masked `l[l < 0] += 2π` and the scaling and truncation to indices. `CartesianLookup` starts from the truncated column and row, and models only the clamping and the read.
- The docstring of `cartesian_sampler` puts (l, b) = (0, 0) at the centre pixel, but the code sends longitude 0 to the last column (clamped from `nx`). The model follows the code, and the float arithmetic that decides this is outside the model in any case.
- The source derives the map's shape from `data.shape[0:2]` (`toasty/tile.py:199`). An array with fewer than two dimensions raises a ValueError at that point. `Raster` is always two-dimensional, so the model does not reach that error.
- The healpy calls (`ang2pix`, `get_interp_val`, `npix2nside`) and the data array are not modelled. `HealpixSampler` models the option checks and returns the options the returned sampler would use.
- `normalize` and its warp functions: `toasty/norm.py` is not part of this model, so the routine is a parameter and the expectations of its tests are not restated.
- `toast()` is not modelled: it creates directories, prints paths and saves PNG files, which is file-system I/O.
- `_guess_healpix` opens a FITS file and reads its header. This is file I/O; `FindExtension` works on an already opened file given as a value.
- `toasty/io.py` and `toasty/viewer.py` (image files, HTTP server, HTML) are not modelled.
- Tiling.IterTiles: returns the whole sequence of yielded tiles instead of yielding them lazily, since the order is all the generator promises.
- Tiling.IterTiles: requires every sample to be a 256 x 256 image, as the docstring's contract for the sampler implies. The shape errors numpy would raise in `hstack`/`vstack` for other shapes are not modelled.
- Samplers.Upper: upper-cases ASCII letters only; Python's `str.upper` also maps other Unicode letters.
- Samplers.IsHealpix: header values are strings. A header whose PIXTYPE is not a string is not modelled.
- Geometry.NodeAt: also defined outside the bounds, where the traversal never goes. The lemmas about it require in-bounds addresses.

## Findings

| source | as written | input that shows it | evidently intended | confidence | as-written member | corrected member |
|---|---|---|---|---|---|---|
| toasty/tile.py:165 | `coord.upper() not in 'CG'` is a substring test, so every piece of "CG" passes, including "" and "CG" | `coord=""` or `coord="cg"` with `interpolation="nearest"` gives a sampler instead of the ValueError | only "C" or "G" in either case, as the error message "Must be 'C' or 'G'" says | not executed | Samplers.HealpixAcceptsJunk | Samplers.FixedRefusesJunk |
