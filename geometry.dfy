/** Tile corners: the fixed depth-1 seed table, the quadrant split that gives
    a tile's four children, and the corners of the tile at any address.
    Points are of an arbitrary type `P`; the great-circle midpoint `mid` and
    the degree-to-radian conversion `radians` are parameters. */
module Geometry {
  import opened Quadtree

  /** A sky position in whole degrees, as the seed table writes it. */
  datatype Degrees = Degrees(lon: int, lat: int)

  /** The corners of a tile: upper-left, upper-right, lower-right, lower-left. */
  datatype Quad<P> = Quad(ul: P, ur: P, lr: P, ll: P)

  /** A work-list entry: address, corners and the orientation flag `increasing`,
      which picks the diagonal whose midpoint is the tile's centre. */
  datatype Node<P> = Node(addr: Address, c: Quad<P>, increasing: bool)

  function MapQuad<A, B>(q: Quad<A>, f: A -> B): Quad<B>
  {
    Quad(f(q.ul), f(q.ur), f(q.lr), f(q.ll))
  }

  const SouthPole := Degrees(0, -90)
  const NorthPole := Degrees(0, 90)

  /** The two poles, in either order. */
  predicate PolePair(p: Degrees, q: Degrees)
  {
    (p == NorthPole && q == SouthPole) || (p == SouthPole && q == NorthPole)
  }

  /** Two points on the equator a quarter turn apart. */
  predicate QuarterApart(p: Degrees, q: Degrees)
  {
    p.lat == 0 && q.lat == 0 && ((p.lon - q.lon) % 360 == 90 || (q.lon - p.lon) % 360 == 90)
  }

  /** Two faces of the octahedron joined along an equatorial edge: one pair
      of opposite corners are the poles, the other pair lie on the equator
      a quarter turn apart. */
  predicate TwoFaces(q: Quad<Degrees>)
  {
    || (PolePair(q.ul, q.lr) && QuarterApart(q.ur, q.ll))
    || (PolePair(q.ur, q.ll) && QuarterApart(q.ul, q.lr))
  }

  /** The four depth-1 tiles, in degrees; each is two of the octahedron's
      eight faces. */
  function Level1(): (r: seq<Quad<Degrees>>)
    ensures |r| == 4
    ensures forall k :: 0 <= k < 4 ==> TwoFaces(r[k])
  {
    [
      Quad(Degrees(0, -90), Degrees(90, 0), Degrees(0, 90), Degrees(180, 0)),
      Quad(Degrees(90, 0), Degrees(0, -90), Degrees(0, 0), Degrees(0, 90)),
      Quad(Degrees(0, 90), Degrees(0, 0), Degrees(0, -90), Degrees(270, 0)),
      Quad(Degrees(180, 0), Degrees(0, 90), Degrees(270, 0), Degrees(0, -90))
    ]
  }

  /** The initial work list: table row k at its depth-1 address, with the
      orientation flag the traversal gives it. */
  function Seeds<P>(radians: Degrees -> P): (r: seq<Node<P>>)
    ensures |r| == 4
    ensures forall k :: 0 <= k < 4 ==> r[k].addr == SeedAddresses[k] && r[k].c == MapQuad(Level1()[k], radians)
    // the flag is set exactly on the two tiles of the main diagonal
    ensures forall k :: 0 <= k < 4 ==> (r[k].increasing <==> r[k].addr.x == r[k].addr.y)
  {
    [Node(Address(1, 0, 0), MapQuad(Level1()[0], radians), true),
     Node(Address(1, 1, 0), MapQuad(Level1()[1], radians), false),
     Node(Address(1, 1, 1), MapQuad(Level1()[2], radians), true),
     Node(Address(1, 0, 1), MapQuad(Level1()[3], radians), false)]
  }

  /** Index in the seed list of the depth-1 tile in column x, row y. */
  function SeedSlot(x: nat, y: nat): (k: nat)
    requires x < 2 && y < 2
    ensures k < 4 && SeedAddresses[k] == Address(1, x, y)
  {
    if y == 0 then x else 3 - x
  }

  ghost predicate SharesVerticalEdge<P>(left: Quad<P>, right: Quad<P>)
  {
    left.ur == right.ul && left.lr == right.ll
  }

  ghost predicate SharesHorizontalEdge<P>(top: Quad<P>, bottom: Quad<P>)
  {
    top.ll == bottom.ul && top.lr == bottom.ur
  }

  ghost predicate Symmetric<P(!new)>(mid: (P, P) -> P)
  {
    forall p, q :: mid(p, q) == mid(q, p)
  }

  /** The centre of a tile: midpoint of the lower-left/upper-right diagonal
      when `increasing`, of the upper-left/lower-right one otherwise. */
  function Centre<P>(q: Quad<P>, increasing: bool, mid: (P, P) -> P): P
  {
    if increasing then mid(q.ll, q.ur) else mid(q.ul, q.lr)
  }

  /** The quadrant split: the four children of a tile, top-left, top-right,
      bottom-left, bottom-right. */
  function Div4<P>(t: Node<P>, mid: (P, P) -> P): (r: seq<Node<P>>)
    ensures |r| == 4
    ensures forall j :: 0 <= j < 4 ==> r[j].addr == Children(t.addr)[j] && r[j].increasing == t.increasing
    // each child keeps the corner of the parent it touches
    ensures r[0].c.ul == t.c.ul && r[1].c.ur == t.c.ur && r[3].c.lr == t.c.lr && r[2].c.ll == t.c.ll
    // the parent's edges are cut at their midpoints
    ensures r[0].c.ur == r[1].c.ul == mid(t.c.ul, t.c.ur)
    ensures r[1].c.lr == r[3].c.ur == mid(t.c.ur, t.c.lr)
    ensures r[2].c.lr == r[3].c.ll == mid(t.c.lr, t.c.ll)
    ensures r[0].c.ll == r[2].c.ul == mid(t.c.ll, t.c.ul)
    // all four meet at the centre
    ensures r[0].c.lr == r[1].c.ll == r[2].c.ur == r[3].c.ul == Centre(t.c, t.increasing, mid)
    // so neighbouring children meet along a whole edge
    ensures SharesVerticalEdge(r[0].c, r[1].c) && SharesVerticalEdge(r[2].c, r[3].c)
    ensures SharesHorizontalEdge(r[0].c, r[2].c) && SharesHorizontalEdge(r[1].c, r[3].c)
  {
    var Quad(ul, ur, lr, ll) := t.c;
    var to, ri, bo, le := mid(ul, ur), mid(ur, lr), mid(lr, ll), mid(ll, ul);
    var ce := if t.increasing then mid(ll, ur) else mid(ul, lr);
    var n, x, y := t.addr.n, t.addr.x, t.addr.y;
    [Node(Address(n + 1, 2 * x, 2 * y), Quad(ul, to, ce, le), t.increasing),
     Node(Address(n + 1, 2 * x + 1, 2 * y), Quad(to, ur, ri, ce), t.increasing),
     Node(Address(n + 1, 2 * x, 2 * y + 1), Quad(le, ce, bo, ll), t.increasing),
     Node(Address(n + 1, 2 * x + 1, 2 * y + 1), Quad(ce, ri, lr, bo), t.increasing)]
  }

  /** The work-list entry the traversal builds for address `a`: the seed for
      depth 1, otherwise the matching child of the parent's entry. Only
      in-bounds addresses are ever reached; for those, `x % 2` and `y % 2`
      at depth 1 are the column and row themselves. */
  function NodeAt<P>(radians: Degrees -> P, mid: (P, P) -> P, a: Address): (r: Node<P>)
    requires a.n >= 1
    decreases a.n
  {
    if a.n == 1 then Seeds(radians)[SeedSlot(a.x % 2, a.y % 2)]
    else Div4(NodeAt(radians, mid, Parent(a)), mid)[ChildIndex(a)]
  }

  /** The entry for an in-bounds address carries that address. */
  lemma {:induction false} NodeAtAddress<P>(radians: Degrees -> P, mid: (P, P) -> P, a: Address)
    requires a.n >= 1 && InBounds(a)
    ensures NodeAt(radians, mid, a).addr == a
    decreases a.n
  {
    if a.n == 1 {
      assert Pow2(1) == 2;
    } else {
      ParentInBounds(a);
      NodeAtAddress(radians, mid, Parent(a));
      ChildOfParent(a);
    }
  }

  /** Splitting the entry for `a` gives the entries for its children. */
  lemma Div4NodeAt<P>(radians: Degrees -> P, mid: (P, P) -> P, a: Address)
    requires a.n >= 1 && InBounds(a)
    ensures forall j :: 0 <= j < 4 ==> Div4(NodeAt(radians, mid, a), mid)[j] == NodeAt(radians, mid, Children(a)[j])
  {
    forall j | 0 <= j < 4
      ensures Div4(NodeAt(radians, mid, a), mid)[j] == NodeAt(radians, mid, Children(a)[j])
    {
      var c := Children(a)[j];
      assert Parent(c) == a && ChildIndex(c) == j;
    }
  }

  /** The orientation flag never changes below a depth-1 tile: it is set
      exactly in the two branches on the main diagonal. */
  lemma {:induction false} FlagOfBranch<P>(radians: Degrees -> P, mid: (P, P) -> P, a: Address)
    requires a.n >= 1 && InBounds(a)
    ensures NodeAt(radians, mid, a).increasing <==> OnMainDiagonal(a)
    decreases a.n
  {
    if a.n == 1 {
      FlagOfSeed(radians, mid, a);
    } else {
      ParentInBounds(a);
      var p := Parent(a);
      FlagOfBranch(radians, mid, p);
      FlagOfChild(radians, mid, a);
      TopBitsOfParent(a);
    }
  }

  /** Splitting passes the flag on unchanged. */
  lemma FlagOfChild<P>(radians: Degrees -> P, mid: (P, P) -> P, a: Address)
    requires a.n >= 2
    ensures NodeAt(radians, mid, a).increasing == NodeAt(radians, mid, Parent(a)).increasing
  {
    NodeAtChildAt(radians, mid, a, Parent(a), ChildIndex(a));
  }

  lemma FlagOfSeed<P>(radians: Degrees -> P, mid: (P, P) -> P, a: Address)
    requires a.n == 1 && InBounds(a)
    ensures NodeAt(radians, mid, a).increasing <==> OnMainDiagonal(a)
  {
    assert Pow2(0) == 1 && Pow2(1) == 2;
    assert a.x % 2 == a.x && a.y % 2 == a.y;
  }

  /** The seed table has no seams: horizontally and vertically adjacent
      depth-1 tiles share their common edge, and all four meet at the north
      pole, which lies at the centre of the root tile; the south pole sits at
      all four outer corners. */
  lemma Level1Seams()
    ensures SharesVerticalEdge(Level1()[0], Level1()[1]) && SharesVerticalEdge(Level1()[3], Level1()[2])
    ensures SharesHorizontalEdge(Level1()[0], Level1()[3]) && SharesHorizontalEdge(Level1()[1], Level1()[2])
    ensures Level1()[0].lr == Level1()[1].ll == Level1()[2].ul == Level1()[3].ur == NorthPole
    ensures Level1()[0].ul == Level1()[1].ur == Level1()[2].lr == Level1()[3].ll == SouthPole
  {
  }

  /** Two positions that lie diametrically apart on the sphere. */
  predicate Antipodal(p: Degrees, q: Degrees)
  {
    p.lat == -q.lat && (p.lat == 90 || p.lat == -90 || (p.lon - q.lon) % 360 == 180)
  }

  /** The split of seed `q` with flag `increasing` takes midpoints of
      non-antipodal corners only: the diagonal the flag chooses and the four
      edges join such corners, while the rejected diagonal joins the poles. */
  predicate SplitsSafely(q: Quad<Degrees>, increasing: bool)
  {
    && (if increasing then Antipodal(q.ul, q.lr) && !Antipodal(q.ll, q.ur)
        else Antipodal(q.ll, q.ur) && !Antipodal(q.ul, q.lr))
    && !Antipodal(q.ul, q.ur) && !Antipodal(q.ur, q.lr) && !Antipodal(q.lr, q.ll) && !Antipodal(q.ll, q.ul)
  }

  /** Every seed, with the flag the traversal gives it, splits safely; with
      the opposite flag none would. */
  lemma SeedDiagonals()
    ensures SplitsSafely(Level1()[0], true) && SplitsSafely(Level1()[1], false)
    ensures SplitsSafely(Level1()[2], true) && SplitsSafely(Level1()[3], false)
    ensures !SplitsSafely(Level1()[0], false) && !SplitsSafely(Level1()[1], true)
    ensures !SplitsSafely(Level1()[2], false) && !SplitsSafely(Level1()[3], true)
  {
  }

  /** Splitting two tiles that share a vertical edge gives children that
      share the halves of that edge, when `mid` is symmetric. */
  lemma SplitKeepsVerticalSeam<P(!new)>(a: Node<P>, b: Node<P>, mid: (P, P) -> P)
    requires Symmetric(mid) && SharesVerticalEdge(a.c, b.c)
    ensures SharesVerticalEdge(Div4(a, mid)[1].c, Div4(b, mid)[0].c)
    ensures SharesVerticalEdge(Div4(a, mid)[3].c, Div4(b, mid)[2].c)
  {
    assert mid(b.c.ll, b.c.ul) == mid(a.c.ur, a.c.lr);
  }

  /** Splitting two tiles that share a horizontal edge gives children that
      share the halves of that edge, when `mid` is symmetric. */
  lemma SplitKeepsHorizontalSeam<P(!new)>(a: Node<P>, b: Node<P>, mid: (P, P) -> P)
    requires Symmetric(mid) && SharesHorizontalEdge(a.c, b.c)
    ensures SharesHorizontalEdge(Div4(a, mid)[2].c, Div4(b, mid)[0].c)
    ensures SharesHorizontalEdge(Div4(a, mid)[3].c, Div4(b, mid)[1].c)
  {
    assert mid(b.c.ul, b.c.ur) == mid(a.c.lr, a.c.ll);
  }

  /** Below depth 1, the entry for `a` is a child of its parent's entry. */
  lemma NodeAtChild<P>(radians: Degrees -> P, mid: (P, P) -> P, a: Address)
    requires a.n >= 2
    ensures NodeAt(radians, mid, a) == Div4(NodeAt(radians, mid, Parent(a)), mid)[ChildIndex(a)]
  {
  }

  /** The same, with the parent and the child index named. */
  lemma NodeAtChildAt<P>(radians: Degrees -> P, mid: (P, P) -> P, a: Address, p: Address, j: nat)
    requires a.n >= 2 && Parent(a) == p && ChildIndex(a) == j
    ensures NodeAt(radians, mid, a) == Div4(NodeAt(radians, mid, p), mid)[j]
  {
    NodeAtChild(radians, mid, a);
  }

  /** The entry for depth-1 address (1, x, y), with its seed corners. */
  lemma NodeAtSeed<P>(radians: Degrees -> P, mid: (P, P) -> P, x: nat, y: nat)
    requires x < 2 && y < 2
    ensures InBounds(Address(1, x, y))
    ensures NodeAt(radians, mid, Address(1, x, y)).c == MapQuad(Level1()[SeedSlot(x, y)], radians)
  {
    assert Pow2(1) == 2;
  }

  lemma SeedVerticalSeam<P>(radians: Degrees -> P, mid: (P, P) -> P, y: nat)
    requires y < 2
    ensures InBounds(Address(1, 0, y)) && InBounds(Address(1, 1, y))
    ensures SharesVerticalEdge(NodeAt(radians, mid, Address(1, 0, y)).c, NodeAt(radians, mid, Address(1, 1, y)).c)
  {
    Level1Seams();
    NodeAtSeed(radians, mid, 0, y);
    NodeAtSeed(radians, mid, 1, y);
  }

  lemma SeedHorizontalSeam<P>(radians: Degrees -> P, mid: (P, P) -> P, x: nat)
    requires x < 2
    ensures InBounds(Address(1, x, 0)) && InBounds(Address(1, x, 1))
    ensures SharesHorizontalEdge(NodeAt(radians, mid, Address(1, x, 0)).c, NodeAt(radians, mid, Address(1, x, 1)).c)
  {
    Level1Seams();
    NodeAtSeed(radians, mid, x, 0);
    NodeAtSeed(radians, mid, x, 1);
  }

  /** The tile at `a` and its right-hand neighbour share their common edge. */
  ghost predicate VerticalSeam<P>(radians: Degrees -> P, mid: (P, P) -> P, a: Address)
    requires a.n >= 1
  {
    SharesVerticalEdge(NodeAt(radians, mid, a).c, NodeAt(radians, mid, Right(a)).c)
  }

  /** The tile at `a` and the one below it share their common edge. */
  ghost predicate HorizontalSeam<P>(radians: Degrees -> P, mid: (P, P) -> P, a: Address)
    requires a.n >= 1
  {
    SharesHorizontalEdge(NodeAt(radians, mid, a).c, NodeAt(radians, mid, Below(a)).c)
  }

  lemma SeedVerticalSeamAt<P>(radians: Degrees -> P, mid: (P, P) -> P, a: Address)
    requires a.n == 1 && InBounds(Right(a))
    ensures VerticalSeam(radians, mid, a)
  {
    assert Pow2(1) == 2;
    assert a == Address(1, 0, a.y) && Right(a) == Address(1, 1, a.y);
    SeedVerticalSeam(radians, mid, a.y);
  }

  lemma SeedHorizontalSeamAt<P>(radians: Degrees -> P, mid: (P, P) -> P, a: Address)
    requires a.n == 1 && InBounds(Below(a))
    ensures HorizontalSeam(radians, mid, a)
  {
    assert Pow2(1) == 2;
    assert a == Address(1, a.x, 0) && Below(a) == Address(1, a.x, 1);
    SeedHorizontalSeam(radians, mid, a.x);
  }

  /** In either row of a split, the left child meets the right child. */
  lemma SplitRowSeam<P>(t: Node<P>, mid: (P, P) -> P, i: nat)
    requires i < 2
    ensures SharesVerticalEdge(Div4(t, mid)[2 * i].c, Div4(t, mid)[1 + 2 * i].c)
  {
    var r := Div4(t, mid);
    assert SharesVerticalEdge(r[0].c, r[1].c) && SharesVerticalEdge(r[2].c, r[3].c);
  }

  /** In either column of a split, the top child meets the bottom child. */
  lemma SplitColumnSeam<P>(t: Node<P>, mid: (P, P) -> P, j: nat)
    requires j < 2
    ensures SharesHorizontalEdge(Div4(t, mid)[j].c, Div4(t, mid)[2 + j].c)
  {
    var r := Div4(t, mid);
    assert SharesHorizontalEdge(r[0].c, r[2].c) && SharesHorizontalEdge(r[1].c, r[3].c);
  }

  /** Right-hand neighbours with the same parent meet inside the parent. */
  lemma SiblingVerticalSeam<P>(radians: Degrees -> P, mid: (P, P) -> P, a: Address)
    requires a.n >= 2 && a.x % 2 == 0
    ensures VerticalSeam(radians, mid, a)
  {
    var i := a.y % 2;
    RightSibling(a);
    NodeAtChildAt(radians, mid, a, Parent(a), 2 * i);
    NodeAtChildAt(radians, mid, Right(a), Parent(a), 1 + 2 * i);
    SplitRowSeam(NodeAt(radians, mid, Parent(a)), mid, i);
  }

  /** Tiles above one another with the same parent meet inside the parent. */
  lemma SiblingHorizontalSeam<P>(radians: Degrees -> P, mid: (P, P) -> P, a: Address)
    requires a.n >= 2 && a.y % 2 == 0
    ensures HorizontalSeam(radians, mid, a)
  {
    var j := a.x % 2;
    LowerSibling(a);
    NodeAtChildAt(radians, mid, a, Parent(a), j);
    NodeAtChildAt(radians, mid, Below(a), Parent(a), 2 + j);
    SplitColumnSeam(NodeAt(radians, mid, Parent(a)), mid, j);
  }

  /** Splitting two tiles side by side: in either row of children, the right
      child of the left tile meets the left child of the right tile. */
  lemma CousinVerticalSeam<P(!new)>(left: Node<P>, right: Node<P>, mid: (P, P) -> P, i: nat)
    requires Symmetric(mid) && SharesVerticalEdge(left.c, right.c) && i < 2
    ensures SharesVerticalEdge(Div4(left, mid)[1 + 2 * i].c, Div4(right, mid)[2 * i].c)
  {
    SplitKeepsVerticalSeam(left, right, mid);
  }

  /** Splitting two tiles one above the other: in either column of children,
      the bottom child of the upper tile meets the top child of the lower one. */
  lemma CousinHorizontalSeam<P(!new)>(top: Node<P>, bottom: Node<P>, mid: (P, P) -> P, j: nat)
    requires Symmetric(mid) && SharesHorizontalEdge(top.c, bottom.c) && j < 2
    ensures SharesHorizontalEdge(Div4(top, mid)[2 + j].c, Div4(bottom, mid)[j].c)
  {
    SplitKeepsHorizontalSeam(top, bottom, mid);
  }

  /** The step of the vertical-seam induction for a tile in an odd column:
      the parents' seam carries over to their children. */
  lemma CousinVerticalStep<P(!new)>(radians: Degrees -> P, mid: (P, P) -> P, a: Address)
    requires Symmetric(mid) && a.n >= 2 && a.x % 2 == 1
    requires VerticalSeam(radians, mid, Parent(a))
    ensures VerticalSeam(radians, mid, a)
  {
    var pa := Parent(a);
    var i := a.y % 2;
    RightCousin(a);
    NodeAtChildAt(radians, mid, a, pa, 1 + 2 * i);
    NodeAtChildAt(radians, mid, Right(a), Right(pa), 2 * i);
    CousinVerticalSeam(NodeAt(radians, mid, pa), NodeAt(radians, mid, Right(pa)), mid, i);
  }

  /** The step of the horizontal-seam induction for a tile in an odd row:
      the parents' seam carries over to their children. */
  lemma CousinHorizontalStep<P(!new)>(radians: Degrees -> P, mid: (P, P) -> P, a: Address)
    requires Symmetric(mid) && a.n >= 2 && a.y % 2 == 1
    requires HorizontalSeam(radians, mid, Parent(a))
    ensures HorizontalSeam(radians, mid, a)
  {
    var pa := Parent(a);
    var j := a.x % 2;
    LowerCousin(a);
    NodeAtChildAt(radians, mid, a, pa, 2 + j);
    NodeAtChildAt(radians, mid, Below(a), Below(pa), j);
    CousinHorizontalSeam(NodeAt(radians, mid, pa), NodeAt(radians, mid, Below(pa)), mid, j);
  }

  /** No seams at any depth: the tile at (n, x, y) and its right-hand
      neighbour (n, x + 1, y), when that is in bounds, share their common
      edge. */
  lemma {:induction false} NoVerticalSeams<P(!new)>(radians: Degrees -> P, mid: (P, P) -> P, a: Address)
    requires Symmetric(mid) && a.n >= 1 && InBounds(Right(a))
    ensures VerticalSeam(radians, mid, a)
    decreases a.n, 1
  {
    if a.n == 1 {
      SeedVerticalSeamAt(radians, mid, a);
    } else if a.x % 2 == 0 {
      SiblingVerticalSeam(radians, mid, a);
    } else {
      CousinVerticalCase(radians, mid, a);
    }
  }

  /** The odd-column case of `NoVerticalSeams`: the parents' seam, by
      induction, carries over to the children. */
  lemma {:induction false} CousinVerticalCase<P(!new)>(radians: Degrees -> P, mid: (P, P) -> P, a: Address)
    requires Symmetric(mid) && a.n >= 2 && a.x % 2 == 1 && InBounds(Right(a))
    ensures VerticalSeam(radians, mid, a)
    decreases a.n, 0
  {
    RightOfParentInBounds(a);
    NoVerticalSeams(radians, mid, Parent(a));
    CousinVerticalStep(radians, mid, a);
  }

  /** No seams at any depth: the tile at (n, x, y) and the one below it,
      (n, x, y + 1), when that is in bounds, share their common edge. */
  lemma {:induction false} NoHorizontalSeams<P(!new)>(radians: Degrees -> P, mid: (P, P) -> P, a: Address)
    requires Symmetric(mid) && a.n >= 1 && InBounds(Below(a))
    ensures HorizontalSeam(radians, mid, a)
    decreases a.n, 1
  {
    if a.n == 1 {
      SeedHorizontalSeamAt(radians, mid, a);
    } else if a.y % 2 == 0 {
      SiblingHorizontalSeam(radians, mid, a);
    } else {
      CousinHorizontalCase(radians, mid, a);
    }
  }

  /** The odd-row case of `NoHorizontalSeams`: the parents' seam, by
      induction, carries over to the children. */
  lemma {:induction false} CousinHorizontalCase<P(!new)>(radians: Degrees -> P, mid: (P, P) -> P, a: Address)
    requires Symmetric(mid) && a.n >= 2 && a.y % 2 == 1 && InBounds(Below(a))
    ensures HorizontalSeam(radians, mid, a)
    decreases a.n, 0
  {
    BelowParentInBounds(a);
    NoHorizontalSeams(radians, mid, Parent(a));
    CousinHorizontalStep(radians, mid, a);
  }
}
