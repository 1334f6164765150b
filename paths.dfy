/** Relative output paths of tiles: depth `n`, column `x` and row `y` are
    written `"{n}/{y}/{y}_{x}.png"`, each number in plain decimal. */
module TilePaths {
  import opened Quadtree

  predicate IsDigit(c: char)
  {
    '0' <= c <= '9'
  }

  predicate AllDigits(s: string)
  {
    forall i :: 0 <= i < |s| ==> IsDigit(s[i])
  }

  function DigitChar(v: nat): (c: char)
    requires v < 10
    ensures IsDigit(c) && c as int - '0' as int == v
  {
    ('0' as int + v) as char
  }

  /** The decimal spelling of `v`, as Python's `'%i' % v` gives it. */
  function Decimal(v: nat): (s: string)
    ensures |s| >= 1 && AllDigits(s)
    ensures s[0] == '0' ==> v == 0 && s == "0"
    decreases v
  {
    if v < 10 then [DigitChar(v)] else Decimal(v / 10) + [DigitChar(v % 10)]
  }

  /** The number a string of decimal digits spells. */
  function DecimalValue(s: string): nat
    requires AllDigits(s)
  {
    if s == [] then 0
    else DecimalValue(s[..|s| - 1]) * 10 + (s[|s| - 1] as int - '0' as int)
  }

  /** Reading back a decimal spelling gives the number spelled. */
  lemma {:induction false} DecimalRoundTrip(v: nat)
    ensures DecimalValue(Decimal(v)) == v
    decreases v
  {
    var s := Decimal(v);
    if v >= 10 {
      DecimalRoundTrip(v / 10);
      assert s[..|s| - 1] == Decimal(v / 10);
    }
  }

  lemma DecimalInjective(a: nat, b: nat)
    requires Decimal(a) == Decimal(b)
    ensures a == b
  {
    DecimalRoundTrip(a);
    DecimalRoundTrip(b);
  }

  /** The file name of the tile at `a` inside its row directory. */
  function TileFileName(a: Address): string
  {
    Decimal(a.y) + "_" + Decimal(a.x) + ".png"
  }

  /** The path under the output directory where the tile at `a` is written:
      depth directory, row directory, file name. */
  function TilePath(a: Address): string
  {
    Decimal(a.n) + "/" + Decimal(a.y) + "/" + TileFileName(a)
  }

  /** In `p + [c] + r`, with `c` not in `p`, the first `c` is at index `|p|`. */
  lemma FirstSeparator(p: string, r: string, c: char)
    requires c !in p
    ensures (p + [c] + r)[|p|] == c
    ensures forall i :: 0 <= i < |p| ==> (p + [c] + r)[i] != c
  {
    forall i | 0 <= i < |p| ensures (p + [c] + r)[i] != c {
      assert (p + [c] + r)[i] == p[i];
    }
  }

  /** A separator that occurs in neither of two prefixes splits the two
      strings at the same place. */
  lemma SplitAtSeparator(p1: string, r1: string, p2: string, r2: string, c: char)
    requires c !in p1 && c !in p2
    requires p1 + [c] + r1 == p2 + [c] + r2
    ensures p1 == p2 && r1 == r2
  {
    var w1, w2 := p1 + [c] + r1, p2 + [c] + r2;
    FirstSeparator(p1, r1, c);
    FirstSeparator(p2, r2, c);
    assert |p1| == |p2|;
    assert p1 == w1[..|p1|] && p2 == w2[..|p2|];
    assert r1 == w1[|p1| + 1..] && r2 == w2[|p2| + 1..];
  }

  lemma DigitsLackSeparator(s: string, c: char)
    requires AllDigits(s) && !IsDigit(c)
    ensures c !in s
  {
  }

  /** A file name is the row number, `_`, then the column number and `.png`. */
  lemma FileNameParts(a: Address)
    ensures TileFileName(a) == Decimal(a.y) + ['_'] + (Decimal(a.x) + ".png")
    ensures '_' !in Decimal(a.y)
  {
    DigitsLackSeparator(Decimal(a.y), '_');
  }

  /** A path is the depth, `/`, then the row number, `/` and the file name. */
  lemma PathParts(a: Address)
    ensures TilePath(a) == Decimal(a.n) + ['/'] + (Decimal(a.y) + ['/'] + TileFileName(a))
    ensures '/' !in Decimal(a.n) && '/' !in Decimal(a.y)
  {
    DigitsLackSeparator(Decimal(a.n), '/');
    DigitsLackSeparator(Decimal(a.y), '/');
  }

  /** A number followed by `.png` gives the number back. */
  lemma DropSuffix(s: string, t: string)
    requires s + ".png" == t + ".png"
    ensures s == t
  {
    assert s == (s + ".png")[..|s|] && t == (t + ".png")[..|t|];
  }

  lemma FileNameInjective(a: Address, b: Address)
    requires TileFileName(a) == TileFileName(b)
    ensures a.x == b.x && a.y == b.y
  {
    FileNameParts(a);
    FileNameParts(b);
    SplitAtSeparator(Decimal(a.y), Decimal(a.x) + ".png", Decimal(b.y), Decimal(b.x) + ".png", '_');
    DropSuffix(Decimal(a.x), Decimal(b.x));
    DecimalInjective(a.y, b.y);
    DecimalInjective(a.x, b.x);
  }

  /** Distinct tiles are written to distinct paths. */
  lemma TilePathInjective(a: Address, b: Address)
    requires TilePath(a) == TilePath(b)
    ensures a == b
  {
    var ya, fa := Decimal(a.y), TileFileName(a);
    var yb, fb := Decimal(b.y), TileFileName(b);
    PathParts(a);
    PathParts(b);
    SplitAtSeparator(Decimal(a.n), ya + ['/'] + fa, Decimal(b.n), yb + ['/'] + fb, '/');
    SplitAtSeparator(ya, fa, yb, fb, '/');
    DecimalInjective(a.n, b.n);
    FileNameInjective(a, b);
  }

  /** The depth-1 tile in column 0, row 1. */
  lemma TilePathExample()
    ensures TilePath(Address(1, 0, 1)) == "1/1/1_0.png"
  {
  }

  /** The root tile. */
  lemma RootPath()
    ensures TilePath(Root) == "0/0/0_0.png"
  {
  }
}
