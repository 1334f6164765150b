/** The tile generator: a work list of tile entries used as a stack, seeded
    with the four depth-1 tiles. Each popped entry is sampled, emitted under
    its path, buffered when it has depth 1, and split into its four children
    while it is above the requested depth. The depth-0 tile comes last,
    built from the four buffered depth-1 images. */
module Tiling {
  import opened Quadtree
  import opened TilePaths
  import opened Geometry
  import opened Images

  /** Tiles are square, this many pixels on a side. */
  const TileSize: nat := 256

  /** The spherical helpers the generator relies on: degrees to the point
      type, the great-circle midpoint, and the sampling grid of a tile, of
      the given size, from its corners and orientation flag. */
  datatype Util<!P, G> = Util(radians: Degrees -> P, mid: (P, P) -> P, subsample: (Quad<P>, nat, bool) -> G)

  /** An emitted tile: its relative path and its image. */
  datatype Tile<Px> = Tile(path: string, image: Image<Px>)

  /** The image the generator produces for the tile at `a` (depth >= 1). */
  function TileImage<P, G, Px>(u: Util<P, G>, sampler: G -> Image<Px>, a: Address): Image<Px>
    requires a.n >= 1
  {
    var t := NodeAt(u.radians, u.mid, a);
    sampler(u.subsample(t.c, TileSize, t.increasing))
  }

  /** The depth the traversal reaches: children are pushed only below the
      requested depth, and the depth-1 tiles are always processed. */
  function Reach(depth: int): (d: nat)
    ensures d >= 1
    ensures depth >= 1 ==> d == depth
    ensures depth <= 1 ==> d == 1
  {
    if depth <= 1 then 1 else depth
  }

  /** The addresses of the entries of a work list. */
  function Addrs<P>(todo: seq<Node<P>>): (r: seq<Address>)
    ensures |r| == |todo|
    ensures forall k :: 0 <= k < |todo| ==> r[k] == todo[k].addr
  {
    seq(|todo|, k requires 0 <= k < |todo| => todo[k].addr)
  }

  /** The entries of the work list are the entries of their addresses. */
  ghost predicate Faithful<P, G>(u: Util<P, G>, todo: seq<Node<P>>)
  {
    forall k :: 0 <= k < |todo| ==> todo[k].addr.n >= 1 && todo[k] == NodeAt(u.radians, u.mid, todo[k].addr)
  }

  /** The seed entries are the entries of the seed addresses. */
  lemma SeedsFaithful<P, G>(u: Util<P, G>)
    ensures Addrs(Seeds(u.radians)) == SeedAddresses
    ensures Faithful(u, Seeds(u.radians))
  {
    var s := Seeds(u.radians);
    assert s[0] == NodeAt(u.radians, u.mid, Address(1, 0, 0));
    assert s[1] == NodeAt(u.radians, u.mid, Address(1, 1, 0));
    assert s[2] == NodeAt(u.radians, u.mid, Address(1, 1, 1));
    assert s[3] == NodeAt(u.radians, u.mid, Address(1, 0, 1));
  }

  /** One step on entries is one step on their addresses: the popped
      entry's children are pushed exactly when its depth is below the
      requested one, which is when `Expand` pushes them. */
  lemma PopAddrs<P>(todo: seq<Node<P>>, mid: (P, P) -> P, depth: int)
    requires |todo| > 0 && todo[|todo| - 1].addr.n >= 1
    ensures var t := todo[|todo| - 1];
      Addrs(todo[..|todo| - 1] + (if t.addr.n < depth then Div4(t, mid) else [])) == Expand(Addrs(todo), Reach(depth))
  {
    var t := todo[|todo| - 1];
    var rest := todo[..|todo| - 1];
    assert Addrs(rest) == Addrs(todo)[..|todo| - 1];
    if t.addr.n < depth {
      assert Addrs(rest + Div4(t, mid)) == Addrs(rest) + Children(t.addr);
    } else {
      assert rest + [] == rest;
    }
  }

  lemma FaithfulAppend<P, G>(u: Util<P, G>, s: seq<Node<P>>, t: seq<Node<P>>)
    requires Faithful(u, s) && Faithful(u, t)
    ensures Faithful(u, s + t)
  {
    var st := s + t;
    forall k | 0 <= k < |st|
      ensures st[k].addr.n >= 1 && st[k] == NodeAt(u.radians, u.mid, st[k].addr)
    {
      if k >= |s| {
        assert st[k] == t[k - |s|];
      } else {
        assert st[k] == s[k];
      }
    }
  }

  /** The children of a faithful entry are faithful. */
  lemma ChildrenFaithful<P, G>(u: Util<P, G>, t: Node<P>)
    requires t.addr.n >= 1 && InBounds(t.addr) && t == NodeAt(u.radians, u.mid, t.addr)
    ensures Faithful(u, Div4(t, u.mid))
  {
    Div4NodeAt(u.radians, u.mid, t.addr);
  }

  /** One step on entries keeps them faithful. */
  lemma PopFaithful<P, G>(u: Util<P, G>, todo: seq<Node<P>>, depth: int)
    requires |todo| > 0 && Faithful(u, todo)
    requires InBounds(todo[|todo| - 1].addr)
    ensures var t := todo[|todo| - 1];
      Faithful(u, todo[..|todo| - 1] + (if t.addr.n < depth then Div4(t, u.mid) else []))
  {
    var t := todo[|todo| - 1];
    var rest := todo[..|todo| - 1];
    assert Faithful(u, rest) by {
      assert forall k :: 0 <= k < |rest| ==> rest[k] == todo[k];
    }
    var kids: seq<Node<P>> := if t.addr.n < depth then Div4(t, u.mid) else [];
    if t.addr.n < depth {
      ChildrenFaithful(u, t);
    }
    FaithfulAppend(u, rest, kids);
  }

  /** The four buffered depth-1 images, keyed by (x, y). */
  ghost predicate Buffered<P, G, Px>(u: Util<P, G>, sampler: G -> Image<Px>, lev1: map<(nat, nat), Image<Px>>, done: seq<Address>)
  {
    forall x: nat, y: nat ::
      ((x, y) in lev1 <==> Address(1, x, y) in done)
      && ((x, y) in lev1 ==> lev1[(x, y)] == TileImage(u, sampler, Address(1, x, y)))
  }

  /** The tiles yielded so far: one per processed address, in order, unless
      the requested depth is 0. */
  ghost predicate Emitted<P, G, Px>(u: Util<P, G>, sampler: G -> Image<Px>, depth: int, done: seq<Address>, out: seq<Tile<Px>>)
  {
    && |out| == (if depth != 0 then |done| else 0)
    && (depth != 0 ==> forall i :: 0 <= i < |done| ==>
          done[i].n >= 1 && out[i] == Tile(TilePath(done[i]), TileImage(u, sampler, done[i])))
  }

  /** The image sampled for a faithful entry is the image of its address. */
  lemma SampledImage<P, G, Px>(u: Util<P, G>, sampler: G -> Image<Px>, t: Node<P>)
    requires t.addr.n >= 1 && t == NodeAt(u.radians, u.mid, t.addr)
    ensures sampler(u.subsample(t.c, TileSize, t.increasing)) == TileImage(u, sampler, t.addr)
  {
  }

  /** Yielding the tile at `a` (when the depth is not 0) keeps `Emitted`. */
  lemma EmitStep<P, G, Px>(u: Util<P, G>, sampler: G -> Image<Px>, depth: int, done: seq<Address>, out: seq<Tile<Px>>, a: Address, img: Image<Px>)
    requires Emitted(u, sampler, depth, done, out)
    requires a.n >= 1 && img == TileImage(u, sampler, a)
    ensures Emitted(u, sampler, depth, done + [a], if depth != 0 then out + [Tile(TilePath(a), img)] else out)
  {
    if depth != 0 {
      var done', out' := done + [a], out + [Tile(TilePath(a), img)];
      forall i | 0 <= i < |done'|
        ensures done'[i].n >= 1 && out'[i] == Tile(TilePath(done'[i]), TileImage(u, sampler, done'[i]))
      {
        if i < |done| {
          assert done'[i] == done[i] && out'[i] == out[i];
        }
      }
    }
  }

  /** Buffering the tile at `a` when it has depth 1 keeps `Buffered`. */
  lemma BufferStep<P, G, Px>(u: Util<P, G>, sampler: G -> Image<Px>, lev1: map<(nat, nat), Image<Px>>, done: seq<Address>, a: Address, img: Image<Px>)
    requires Buffered(u, sampler, lev1, done)
    requires a.n >= 1 && img == TileImage(u, sampler, a)
    ensures Buffered(u, sampler, if a.n == 1 then lev1[(a.x, a.y) := img] else lev1, done + [a])
  {
    var lev1' := if a.n == 1 then lev1[(a.x, a.y) := img] else lev1;
    forall x: nat, y: nat
      ensures ((x, y) in lev1' <==> Address(1, x, y) in done + [a])
      ensures ((x, y) in lev1' ==> lev1'[(x, y)] == TileImage(u, sampler, Address(1, x, y)))
    {
      assert Address(1, x, y) in done + [a] <==> Address(1, x, y) in done || Address(1, x, y) == a;
    }
  }

  /** Once every depth-1 address is processed, exactly the four keys
      (0, 0), (1, 0), (0, 1) and (1, 1) are buffered. */
  lemma BufferedKeys<P, G, Px>(u: Util<P, G>, sampler: G -> Image<Px>, lev1: map<(nat, nat), Image<Px>>, done: seq<Address>, d: nat)
    requires Buffered(u, sampler, lev1, done)
    requires forall b :: InRange(b, d) <==> b in done
    requires d >= 1
    ensures lev1.Keys == {(0, 0), (1, 0), (0, 1), (1, 1)}
  {
    assert Pow2(1) == 2;
    var keys := {(0, 0), (1, 0), (0, 1), (1, 1)};
    forall k | k in lev1.Keys
      ensures k in keys
    {
      assert InRange(Address(1, k.0, k.1), d);
    }
    forall k | k in keys
      ensures k in lev1.Keys
    {
      assert InRange(Address(1, k.0, k.1), d);
    }
  }

  /** The four depth-1 images placed as the root mosaic wants them:
      column 0 row 0 top-left, column 1 row 0 top-right, and so on. */
  function RootOf<P, G(!new), Px>(u: Util<P, G>, sampler: G -> Image<Px>): Image<Px>
    requires forall g :: IsRect(sampler(g), TileSize, TileSize)
  {
    var tl, tr := TileImage(u, sampler, Address(1, 0, 0)), TileImage(u, sampler, Address(1, 1, 0));
    var bl, br := TileImage(u, sampler, Address(1, 0, 1)), TileImage(u, sampler, Address(1, 1, 1));
    assert IsRect(tl, TileSize, TileSize) && IsRect(tr, TileSize, TileSize);
    assert IsRect(bl, TileSize, TileSize) && IsRect(br, TileSize, TileSize);
    RootImage(tl, tr, bl, br)
  }

  /** The depth-0 image from the buffered depth-1 images. */
  function BufferRoot<Px>(lev1: map<(nat, nat), Image<Px>>): Image<Px>
    requires lev1.Keys == {(0, 0), (1, 0), (0, 1), (1, 1)}
    requires |lev1[(0, 0)]| == |lev1[(1, 0)]| && |lev1[(0, 1)]| == |lev1[(1, 1)]|
  {
    RootImage(lev1[(0, 0)], lev1[(1, 0)], lev1[(0, 1)], lev1[(1, 1)])
  }

  /** The buffer the traversal leaves holds the images `RootOf` uses. */
  lemma BufferRootOf<P, G(!new), Px>(u: Util<P, G>, sampler: G -> Image<Px>, lev1: map<(nat, nat), Image<Px>>)
    requires forall g :: IsRect(sampler(g), TileSize, TileSize)
    requires lev1.Keys == {(0, 0), (1, 0), (0, 1), (1, 1)}
    requires forall x: nat, y: nat :: (x, y) in lev1 ==> lev1[(x, y)] == TileImage(u, sampler, Address(1, x, y))
    ensures |lev1[(0, 0)]| == |lev1[(1, 0)]| && |lev1[(0, 1)]| == |lev1[(1, 1)]|
    ensures BufferRoot(lev1) == RootOf(u, sampler)
  {
    assert lev1[(0, 0)] == TileImage(u, sampler, Address(1, 0, 0));
    assert lev1[(1, 0)] == TileImage(u, sampler, Address(1, 1, 0));
    assert lev1[(0, 1)] == TileImage(u, sampler, Address(1, 0, 1));
    assert lev1[(1, 1)] == TileImage(u, sampler, Address(1, 1, 1));
  }

  /** The loop invariant of `Traverse`: the work list holds faithful
      entries, its addresses and the processed ones partition the tiles to
      `Reach(depth)`, and every processed tile has been yielded and, at
      depth 1, buffered. */
  ghost predicate TraverseInvariant<P, G, Px>(u: Util<P, G>, sampler: G -> Image<Px>, depth: int,
      todo: seq<Node<P>>, processed: seq<Address>, out: seq<Tile<Px>>, lev1: map<(nat, nat), Image<Px>>)
  {
    && Faithful(u, todo)
    && Partition(processed, Addrs(todo), Reach(depth))
    && |processed| + Pending(Addrs(todo), Reach(depth)) == 4 * SubtreeSize(1, Reach(depth))
    && Emitted(u, sampler, depth, processed, out)
    && Buffered(u, sampler, lev1, processed)
  }

  /** The seeded work list, with nothing processed, satisfies the invariant. */
  lemma TraverseStart<P, G, Px>(u: Util<P, G>, sampler: G -> Image<Px>, depth: int)
    ensures TraverseInvariant(u, sampler, depth, Seeds(u.radians), [], [], map[])
  {
    SeedsFaithful(u);
    InitialPartition(Reach(depth));
  }

  /** One pass of the loop keeps the invariant and finishes one tile. */
  lemma TraverseStep<P, G, Px>(u: Util<P, G>, sampler: G -> Image<Px>, depth: int,
      todo: seq<Node<P>>, processed: seq<Address>, out: seq<Tile<Px>>, lev1: map<(nat, nat), Image<Px>>)
    requires |todo| > 0 && TraverseInvariant(u, sampler, depth, todo, processed, out, lev1)
    ensures var t := todo[|todo| - 1];
      var img := sampler(u.subsample(t.c, TileSize, t.increasing));
      var todo' := todo[..|todo| - 1] + (if t.addr.n < depth then Div4(t, u.mid) else []);
      && TraverseInvariant(u, sampler, depth, todo', processed + [t.addr],
           if depth != 0 then out + [Tile(TilePath(t.addr), img)] else out,
           if t.addr.n == 1 then lev1[(t.addr.x, t.addr.y) := img] else lev1)
      && Pending(Addrs(todo'), Reach(depth)) < Pending(Addrs(todo), Reach(depth))
  {
    var d := Reach(depth);
    var t := todo[|todo| - 1];
    var img := sampler(u.subsample(t.c, TileSize, t.increasing));
    assert Addrs(todo)[|todo| - 1] == t.addr;
    PopAddrs(todo, u.mid, depth);
    PopFaithful(u, todo, depth);
    PopStep(processed, Addrs(todo), d);
    SampledImage(u, sampler, t);
    EmitStep(u, sampler, depth, processed, out, t.addr, img);
    BufferStep(u, sampler, lev1, processed, t.addr, img);
  }

  /** The work-list loop: every tile down to `Reach(depth)` is popped,
      sampled, yielded unless the depth is 0, and buffered when it has
      depth 1. `processed` is the sequence of popped addresses. */
  method Traverse<P, G, Px>(u: Util<P, G>, sampler: G -> Image<Px>, depth: int)
    returns (out: seq<Tile<Px>>, lev1: map<(nat, nat), Image<Px>>, ghost processed: seq<Address>)
    ensures forall b :: InRange(b, Reach(depth)) <==> b in processed
    ensures forall i, j :: 0 <= i < j < |processed| ==> processed[i] != processed[j]
    ensures Emitted(u, sampler, depth, processed, out)
    ensures Buffered(u, sampler, lev1, processed)
    ensures 3 * |processed| + 4 == 4 * Pow4(Reach(depth))
  {
    var todo := Seeds(u.radians);
    lev1 := map[];
    out := [];
    processed := [];
    TraverseStart(u, sampler, depth);
    while |todo| > 0
      invariant TraverseInvariant(u, sampler, depth, todo, processed, out, lev1)
      decreases Pending(Addrs(todo), Reach(depth))
    {
      var t := todo[|todo| - 1];
      TraverseStep(u, sampler, depth, todo, processed, out, lev1);
      var n, x, y := t.addr.n, t.addr.x, t.addr.y;
      var pth := TilePath(t.addr);
      var img := sampler(u.subsample(t.c, TileSize, t.increasing));
      if n == 1 {
        lev1 := lev1[(x, y) := img];
      }
      if depth != 0 {
        out := out + [Tile(pth, img)];
      }
      var children := if n < depth then Div4(t, u.mid) else [];
      todo := todo[..|todo| - 1] + children;
      processed := processed + [t.addr];
    }
    assert Addrs(todo) == [];
    FinalPartition(processed, Reach(depth));
    SubtreeSizeClosedForm(1, Reach(depth));
  }

  /** Tiles yielded for distinct addresses, followed by the root, are
      written to distinct paths. */
  lemma PathsDistinct<Px>(done: seq<Address>, out: seq<Tile<Px>>)
    requires forall i, j :: 0 <= i < j < |done| ==> done[i] != done[j]
    requires forall i :: 0 <= i < |done| ==> done[i].n >= 1
    requires |out| == |done| + 1 && out[|done|].path == TilePath(Root)
    requires forall i :: 0 <= i < |done| ==> out[i].path == TilePath(done[i])
    ensures forall i, j :: 0 <= i < j < |out| ==> out[i].path != out[j].path
  {
    forall i, j | 0 <= i < j < |out|
      ensures out[i].path != out[j].path
    {
      if out[i].path == out[j].path {
        if j == |done| {
          TilePathInjective(done[i], Root);
        } else {
          TilePathInjective(done[i], done[j]);
        }
      }
    }
  }

  /** For a depth of 0 or more, the yielded paths are exactly those of the
      in-bounds addresses of depth 0 to `depth`. */
  lemma EmittedPaths<Px>(depth: int, done: seq<Address>, out: seq<Tile<Px>>)
    requires depth >= 0
    requires forall b :: InRange(b, Reach(depth)) <==> b in done
    requires |out| == (if depth != 0 then |done| else 0) + 1
    requires depth != 0 ==> forall i :: 0 <= i < |done| ==> out[i].path == TilePath(done[i])
    requires out[|out| - 1].path == TilePath(Root)
    ensures forall a: Address :: a.n <= depth && InBounds(a) <==> exists i :: 0 <= i < |out| && out[i].path == TilePath(a)
  {
    assert Pow2(0) == 1;
    forall a: Address
      ensures a.n <= depth && InBounds(a) <==> exists i :: 0 <= i < |out| && out[i].path == TilePath(a)
    {
      if a.n <= depth && InBounds(a) {
        if a.n == 0 {
          assert a == Root && out[|out| - 1].path == TilePath(a);
        } else {
          assert InRange(a, Reach(depth));
          var i :| 0 <= i < |done| && done[i] == a;
          assert out[i].path == TilePath(a);
        }
      }
      if exists i :: 0 <= i < |out| && out[i].path == TilePath(a) {
        var i :| 0 <= i < |out| && out[i].path == TilePath(a);
        if i == |out| - 1 {
          TilePathInjective(a, Root);
        } else {
          TilePathInjective(a, done[i]);
          assert InRange(done[i], Reach(depth));
        }
      }
    }
  }

  /** Appending the depth-0 tile to the loop's tiles: the yielded paths are
      distinct and, for a depth of 0 or more, exactly those of the tiles of
      depth 0 to `depth`. */
  lemma RootAppended<P, G, Px>(u: Util<P, G>, sampler: G -> Image<Px>, depth: int, done: seq<Address>,
      tiles: seq<Tile<Px>>, root: Image<Px>, out: seq<Tile<Px>>)
    requires forall b :: InRange(b, Reach(depth)) <==> b in done
    requires NoRepeats(done)
    requires Emitted(u, sampler, depth, done, tiles)
    requires out == tiles + [Tile(TilePath(Root), root)]
    ensures |out| == (if depth != 0 then |done| else 0) + 1
    ensures depth != 0 ==> forall i :: 0 <= i < |done| ==>
      done[i].n >= 1 && out[i] == Tile(TilePath(done[i]), TileImage(u, sampler, done[i]))
    ensures forall i, j :: 0 <= i < j < |out| ==> out[i].path != out[j].path
    ensures depth >= 0 ==> forall a: Address ::
      a.n <= depth && InBounds(a) <==> exists i :: 0 <= i < |out| && out[i].path == TilePath(a)
  {
    assert forall i :: 0 <= i < |tiles| ==> out[i] == tiles[i];
    if depth != 0 {
      PathsDistinct(done, out);
    }
    if depth >= 0 {
      EmittedPaths(depth, done, out);
    }
  }

  /** All tiles to `depth`, in the order they are yielded: the work-list
      loop's tiles, then the depth-0 tile. `processed` is the sequence of
      addresses popped from the work list and `buffered` the dictionary of
      depth-1 images the root is built from. */
  method IterTiles<P, G(!new), Px>(u: Util<P, G>, sampler: G -> Image<Px>, depth: int)
    returns (out: seq<Tile<Px>>, ghost processed: seq<Address>, ghost buffered: map<(nat, nat), Image<Px>>)
    requires forall g :: IsRect(sampler(g), TileSize, TileSize)
    // the processed addresses are exactly the in-bounds ones of depth 1 to Reach(depth), once each
    ensures forall b :: InRange(b, Reach(depth)) <==> b in processed
    ensures forall i, j :: 0 <= i < j < |processed| ==> processed[i] != processed[j]
    // every processed tile is yielded, in order, unless depth is 0; then the root
    ensures |out| == (if depth != 0 then |processed| else 0) + 1
    ensures depth != 0 ==> forall i :: 0 <= i < |processed| ==>
      processed[i].n >= 1 && out[i] == Tile(TilePath(processed[i]), TileImage(u, sampler, processed[i]))
    ensures out[|out| - 1] == Tile(TilePath(Root), RootOf(u, sampler))
    // no two yielded tiles share a path
    ensures forall i, j :: 0 <= i < j < |out| ==> out[i].path != out[j].path
    // the paths are those of all in-bounds tiles of depth 0 to depth
    ensures depth >= 0 ==> forall a: Address ::
      a.n <= depth && InBounds(a) <==> exists i :: 0 <= i < |out| && out[i].path == TilePath(a)
    // the depth-1 images are buffered whatever the depth
    ensures buffered.Keys == {(0, 0), (1, 0), (0, 1), (1, 1)}
    ensures forall x: nat, y: nat :: (x, y) in buffered ==> buffered[(x, y)] == TileImage(u, sampler, Address(1, x, y))
    // 1 + 4 + ... + 4^depth tiles in all, or 4 processed and 1 or 5 yielded
    ensures depth >= 1 ==> 3 * |out| + 1 == Pow4(depth + 1)
    ensures depth < 1 ==> |processed| == 4
  {
    var tiles, lev1;
    tiles, lev1, processed := Traverse(u, sampler, depth);
    BufferedKeys(u, sampler, lev1, processed, Reach(depth));
    BufferRootOf(u, sampler, lev1);
    var root := BufferRoot(lev1);
    out := tiles + [Tile("0/0/0_0.png", root)];
    buffered := lev1;
    RootPath();
    RootAppended(u, sampler, depth, processed, tiles, root, out);
    assert Pow4(1) == 4;
  }
}
