/** The configuration checks next to the tile generator: building a sampler
    for a plate carree map (aspect-ratio check and index clamping), the
    option checks of the HEALPix sampler, and the search for the first
    HEALPix extension of a FITS file. */
module Samplers {
  import opened Images

  datatype Result<T, E> = Ok(value: T) | Err(error: E)

  /** The exception class an error is raised as. */
  datatype ErrorKind = ValueError | NotImplementedError | IndexError

  /** The errors these checks raise. */
  datatype ConfigError =
    | NotTwiceAsWide
    | InvalidInterpolation(interpolation: string)
    | InvalidCoord(coord: string)
    | CoordNotSupported
    | NoHealpixExtension(filename: string)

  function Kind(e: ConfigError): ErrorKind
  {
    match e
    case NotTwiceAsWide => ValueError
    case InvalidInterpolation(_) => ValueError
    case InvalidCoord(_) => ValueError
    case CoordNotSupported => NotImplementedError
    case NoHealpixExtension(_) => IndexError
  }

  /** The message each error carries; `%s` of a string is the string. */
  function Message(e: ConfigError): string
  {
    match e
    case NotTwiceAsWide => "Map must be twice as wide as it is tall"
    case InvalidInterpolation(i) => "Invalid interpolation " + i + ". Must be one of ['nearest', 'bilinear']"
    case InvalidCoord(c) => "Invalid coord " + c + ". Must be 'C' or 'G'"
    case CoordNotSupported => "coord='G' not yet supported"
    case NoHealpixExtension(f) => "No HEALPIX extensions found in " + f
  }

  // ---------------------------------------------------------------------
  // Plate carree maps

  /** A map of `ny` rows and `nx` columns. */
  datatype Raster<Px> = Raster(ny: nat, nx: nat, pixels: Image<Px>)

  /** An array always has the shape it reports. */
  predicate WellFormed<Px>(r: Raster<Px>)
  {
    IsRect(r.pixels, r.ny, r.nx)
  }

  /** Building the sampler: the map has to be exactly twice as wide as it is
      tall; the sampler then reads from that map. */
  function CartesianSampler<Px>(data: Raster<Px>): (r: Result<Raster<Px>, ConfigError>)
    requires WellFormed(data)
    ensures r.Ok? <==> data.nx == 2 * data.ny
    ensures r.Ok? ==> r.value == data
    ensures r.Err? ==> r.error == NotTwiceAsWide && Kind(r.error) == ValueError
    ensures r.Err? ==> Message(r.error) == "Map must be twice as wide as it is tall"
  {
    if data.ny * 2 != data.nx then Err(NotTwiceAsWide) else Ok(data)
  }

  /** Clamping to `[lo, hi]` as the array library does it: the lower bound
      first, then the upper, so that `hi` wins when `lo > hi`. */
  function Clip(v: int, lo: int, hi: int): (r: int)
    ensures lo <= hi ==> lo <= r <= hi
    ensures lo <= v <= hi ==> r == v
    ensures v < lo ==> r == (if lo <= hi then lo else hi)
    ensures hi < v ==> r == hi
    ensures lo > hi ==> r == hi
  {
    var above := if v < lo then lo else v;
    if above > hi then hi else above
  }

  /** Reading from an empty map: the array library raises an IndexError. */
  datatype LookupError = EmptyMap

  /** One lookup of the sampler, given the column and row the lon/lat
      arithmetic truncated to: both are clamped into the map. An empty map
      (0 x 0, which passes the aspect check) has no pixel at the clamped
      index -1. */
  function CartesianLookup<Px>(r: Raster<Px>, col: int, row: int): (p: Result<Px, LookupError>)
    requires WellFormed(r) && r.nx == 2 * r.ny
    ensures p.Err? <==> r.ny == 0
    ensures p.Ok? ==> 0 <= Clip(row, 0, r.ny - 1) < r.ny && 0 <= Clip(col, 0, r.nx - 1) < r.nx
    ensures p.Ok? ==> p.value == r.pixels[Clip(row, 0, r.ny - 1)][Clip(col, 0, r.nx - 1)]
  {
    if r.ny == 0 then Err(EmptyMap)
    else Ok(r.pixels[Clip(row, 0, r.ny - 1)][Clip(col, 0, r.nx - 1)])
  }

  /** A lookup at an index inside the map reads that very pixel; one left
      of or above the map reads the first column or row, one right of or
      below it the last. */
  lemma LookupClamps<Px>(r: Raster<Px>, col: int, row: int)
    requires WellFormed(r) && r.nx == 2 * r.ny && r.ny > 0
    ensures var c := if col < 0 then 0 else if col >= r.nx then r.nx - 1 else col;
      var b := if row < 0 then 0 else if row >= r.ny then r.ny - 1 else row;
      CartesianLookup(r, col, row) == Ok(r.pixels[b][c])
  {
  }

  /** Sampling a grid of (column, row) pairs: the lookups, pixel by pixel,
      in the grid's shape. The empty map fails as soon as there is any
      pixel to look up. */
  function CartesianSample<Px>(r: Raster<Px>, grid: Image<(int, int)>): (img: Result<Image<Px>, LookupError>)
    requires WellFormed(r) && r.nx == 2 * r.ny
    ensures img.Err? <==> r.ny == 0 && exists i :: 0 <= i < |grid| && grid[i] != []
    ensures img.Ok? ==> |img.value| == |grid| && forall i :: 0 <= i < |grid| ==>
      |img.value[i]| == |grid[i]| && forall j :: 0 <= j < |grid[i]| ==>
        CartesianLookup(r, grid[i][j].0, grid[i][j].1) == Ok(img.value[i][j])
  {
    if r.ny == 0 && exists i :: 0 <= i < |grid| && grid[i] != [] then Err(EmptyMap)
    else if r.ny == 0 then
      Ok(seq(|grid|, i requires 0 <= i < |grid| => []))
    else
      Ok(seq(|grid|, i requires 0 <= i < |grid| =>
        seq(|grid[i]|, j requires 0 <= j < |grid[i]| =>
          r.pixels[Clip(grid[i][j].1, 0, r.ny - 1)][Clip(grid[i][j].0, 0, r.nx - 1)])))
  }

  // ---------------------------------------------------------------------
  // HEALPix options

  /** Upper case of ASCII letters; other characters are kept. */
  function UpperChar(c: char): char
  {
    if 'a' <= c <= 'z' then (c as int - 32) as char else c
  }

  function Upper(s: string): (u: string)
    ensures |u| == |s| && forall i :: 0 <= i < |s| ==> u[i] == UpperChar(s[i])
  {
    seq(|s|, i requires 0 <= i < |s| => UpperChar(s[i]))
  }

  /** `s` occurs in `t` as a contiguous piece: the string `in` test. */
  predicate IsSubstring(s: string, t: string)
  {
    exists i, j :: 0 <= i <= j <= |t| && t[i..j] == s
  }

  /** The pieces of "CG" are exactly "", "C", "G" and "CG". */
  lemma PiecesOfCG(s: string)
    ensures IsSubstring(s, "CG") <==> s == "" || s == "C" || s == "G" || s == "CG"
  {
    var t := "CG";
    if s == "" {
      assert t[0..0] == s;
    } else if s == "C" {
      assert t[0..1] == s;
    } else if s == "G" {
      assert t[1..2] == s;
    } else if s == "CG" {
      assert t[0..2] == s;
    }
  }

  /** What a valid set of options leaves for the sampler: the ordering of
      the data and whether to interpolate bilinearly. */
  datatype HealpixOptions = HealpixOptions(nest: bool, bilinear: bool)

  predicate ValidInterpolation(interpolation: string)
  {
    interpolation == "nearest" || interpolation == "bilinear"
  }

  /** The option checks of the HEALPix sampler, as written: interpolation
      first, then the coordinate system by a piece-of-"CG" test, then the
      refusal of Galactic coordinates. */
  function HealpixSampler(nest: bool := false, coord: string := "C", interpolation: string := "nearest"): Result<HealpixOptions, ConfigError>
  {
    if !ValidInterpolation(interpolation) then Err(InvalidInterpolation(interpolation))
    else if !IsSubstring(Upper(coord), "CG") then Err(InvalidCoord(coord))
    else if Upper(coord) == "G" then Err(CoordNotSupported)
    else Ok(HealpixOptions(nest, interpolation == "bilinear"))
  }

  /** With every option left at its default the options are valid:
      ring ordering, nearest-pixel lookup. */
  lemma HealpixDefaults()
    ensures HealpixSampler() == Ok(HealpixOptions(false, false))
  {
    assert Upper("C") == "C" == "CG"[0..1];
    assert IsSubstring(Upper("C"), "CG");
  }

  /** The interpolation is checked first: a bad one is reported whatever
      the coordinate system. */
  lemma InterpolationCheckedFirst(nest: bool, coord: string, interpolation: string)
    requires !ValidInterpolation(interpolation)
    ensures HealpixSampler(nest, coord, interpolation) == Err(InvalidInterpolation(interpolation))
    ensures Kind(HealpixSampler(nest, coord, interpolation).error) == ValueError
    ensures Message(HealpixSampler(nest, coord, interpolation).error)
         == "Invalid interpolation " + interpolation + ". Must be one of ['nearest', 'bilinear']"
  {
  }

  /** As written, the check lets through every coordinate string whose
      upper case is "", "C" or "CG", and refuses "G" as not supported. */
  lemma {:induction false} HealpixAsWritten(nest: bool, coord: string, interpolation: string)
    requires ValidInterpolation(interpolation)
    ensures HealpixSampler(nest, coord, interpolation).Ok? <==>
      (Upper(coord) == "" || Upper(coord) == "C" || Upper(coord) == "CG")
    ensures Upper(coord) == "G" ==> HealpixSampler(nest, coord, interpolation) == Err(CoordNotSupported)
    ensures Upper(coord) == "G" ==> Kind(HealpixSampler(nest, coord, interpolation).error) == NotImplementedError
    ensures HealpixSampler(nest, coord, interpolation).Err? && Upper(coord) != "G" ==>
      HealpixSampler(nest, coord, interpolation).error == InvalidCoord(coord)
    ensures HealpixSampler(nest, coord, interpolation).Err? && Upper(coord) != "G" ==>
      Message(HealpixSampler(nest, coord, interpolation).error) == "Invalid coord " + coord + ". Must be 'C' or 'G'"
    ensures HealpixSampler(nest, coord, interpolation).Ok? ==>
      HealpixSampler(nest, coord, interpolation).value == HealpixOptions(nest, interpolation == "bilinear")
  {
    PiecesOfCG(Upper(coord));
  }

  /** The strings the piece test wrongly accepts: the empty coordinate and
      "cg" both give a sampler. */
  lemma HealpixAcceptsJunk()
    ensures HealpixSampler(false, "", "nearest").Ok?
    ensures HealpixSampler(false, "cg", "nearest").Ok?
  {
    var t := "CG";
    assert t[0..0] == Upper("");
    assert Upper("cg") == "CG" && t[0..2] == "CG";
  }

  /** The check as the error message states it: the coordinate system must
      be 'C' or 'G' (in either case), and 'G' is not yet supported. */
  function HealpixSamplerFixed(nest: bool := false, coord: string := "C", interpolation: string := "nearest"): (r: Result<HealpixOptions, ConfigError>)
    ensures !ValidInterpolation(interpolation) ==> r == Err(InvalidInterpolation(interpolation))
    ensures ValidInterpolation(interpolation) ==> (r.Ok? <==> Upper(coord) == "C")
    ensures ValidInterpolation(interpolation) && Upper(coord) == "G" ==> r == Err(CoordNotSupported)
    ensures ValidInterpolation(interpolation) && Upper(coord) != "C" && Upper(coord) != "G" ==> r == Err(InvalidCoord(coord))
    ensures r.Ok? ==> r.value == HealpixOptions(nest, interpolation == "bilinear")
  {
    if !ValidInterpolation(interpolation) then Err(InvalidInterpolation(interpolation))
    else if Upper(coord) != "C" && Upper(coord) != "G" then Err(InvalidCoord(coord))
    else if Upper(coord) == "G" then Err(CoordNotSupported)
    else Ok(HealpixOptions(nest, interpolation == "bilinear"))
  }

  /** The fixed check refuses the strings the written one lets through, and
      agrees with it on every coordinate whose upper case is "C" or "G". */
  lemma FixedRefusesJunk(nest: bool, coord: string, interpolation: string)
    ensures HealpixSamplerFixed(false, "", "nearest") == Err(InvalidCoord(""))
    ensures HealpixSamplerFixed(false, "cg", "nearest") == Err(InvalidCoord("cg"))
    ensures Upper(coord) == "C" || Upper(coord) == "G" ==>
      HealpixSamplerFixed(nest, coord, interpolation) == HealpixSampler(nest, coord, interpolation)
  {
    assert Upper("cg") == "CG";
    PiecesOfCG(Upper(coord));
  }

  // ---------------------------------------------------------------------
  // FITS extensions

  /** A header-data unit: only its header keywords matter here. */
  datatype Hdu = Hdu(header: map<string, string>)

  /** An opened FITS file: its name and its header-data units in order. */
  datatype FitsFile = FitsFile(filename: string, hdus: seq<Hdu>)

  /** The header says PIXTYPE = 'HEALPIX'; a missing keyword never matches. */
  predicate IsHealpix(h: Hdu)
  {
    "PIXTYPE" in h.header && h.header["PIXTYPE"] == "HEALPIX"
  }

  /** The index of the first HEALPix extension, or the error that none has
      been found. */
  method FindExtension(f: FitsFile) returns (r: Result<nat, ConfigError>)
    ensures r.Ok? ==> r.value < |f.hdus| && IsHealpix(f.hdus[r.value])
    ensures r.Ok? ==> forall k :: 0 <= k < r.value ==> !IsHealpix(f.hdus[k])
    ensures r.Err? <==> forall k :: 0 <= k < |f.hdus| ==> !IsHealpix(f.hdus[k])
    ensures r.Err? ==> r.error == NoHealpixExtension(f.filename) && Kind(r.error) == IndexError
    ensures r.Err? ==> Message(r.error) == "No HEALPIX extensions found in " + f.filename
  {
    var i := 0;
    while i < |f.hdus|
      invariant 0 <= i <= |f.hdus|
      invariant forall k :: 0 <= k < i ==> !IsHealpix(f.hdus[k])
    {
      if "PIXTYPE" in f.hdus[i].header && f.hdus[i].header["PIXTYPE"] == "HEALPIX" {
        return Ok(i);
      }
      i := i + 1;
    }
    return Err(NoHealpixExtension(f.filename));
  }
}
