/** Tile addresses of the TOAST quad-tree, the split of an address into its
    four children, the "lies in the subtree of" relation, and the facts about
    the work list of addresses that the traversal in Tiling keeps. */
module Quadtree {

  /** A tile address: depth `n`, column `x`, row `y` (row 0 is the top row). */
  datatype Address = Address(n: nat, x: nat, y: nat)

  /** The single depth-0 tile. */
  const Root := Address(0, 0, 0)

  function Pow2(k: nat): (r: nat)
    ensures r >= 1
  {
    if k == 0 then 1 else 2 * Pow2(k - 1)
  }

  function Pow4(k: nat): (r: nat)
    ensures r >= 1
  {
    if k == 0 then 1 else 4 * Pow4(k - 1)
  }

  /** Column and row both lie in [0, 2^n). */
  predicate InBounds(a: Address)
  {
    a.x < Pow2(a.n) && a.y < Pow2(a.n)
  }

  /** The addresses a traversal to maximum depth `d` visits below the root. */
  predicate InRange(a: Address, d: nat)
  {
    1 <= a.n <= d && InBounds(a)
  }

  function Parent(a: Address): Address
    requires a.n >= 1
  {
    Address(a.n - 1, a.x / 2, a.y / 2)
  }

  /** Position of `a` among its parent's children: 0 top-left, 1 top-right,
      2 bottom-left, 3 bottom-right. */
  function ChildIndex(a: Address): (j: nat)
    ensures j < 4
  {
    a.x % 2 + 2 * (a.y % 2)
  }

  /** The four children of `a`, in the order the quadrant split lists them. */
  function Children(a: Address): (r: seq<Address>)
    ensures |r| == 4
    ensures forall j :: 0 <= j < 4 ==> r[j].n == a.n + 1 && Parent(r[j]) == a && ChildIndex(r[j]) == j
    ensures InBounds(a) ==> forall j :: 0 <= j < 4 ==> InBounds(r[j])
  {
    [Address(a.n + 1, 2 * a.x, 2 * a.y), Address(a.n + 1, 2 * a.x + 1, 2 * a.y),
     Address(a.n + 1, 2 * a.x, 2 * a.y + 1), Address(a.n + 1, 2 * a.x + 1, 2 * a.y + 1)]
  }

  /** Every address below the root is the child of its parent that ChildIndex names. */
  lemma ChildOfParent(c: Address)
    requires c.n >= 1
    ensures Children(Parent(c))[ChildIndex(c)] == c
  {
  }

  /** The parent of an in-bounds address is in bounds. */
  lemma ParentInBounds(a: Address)
    requires a.n >= 1 && InBounds(a)
    ensures InBounds(Parent(a))
  {
    assert Pow2(a.n) == 2 * Pow2(a.n - 1);
  }

  /** The neighbour to the right of `a`, at the same depth. */
  function Right(a: Address): Address
  {
    Address(a.n, a.x + 1, a.y)
  }

  /** The neighbour below `a`, at the same depth. */
  function Below(a: Address): Address
  {
    Address(a.n, a.x, a.y + 1)
  }

  /** A tile in an even column and its right-hand neighbour are the
      left and right children in one row of the same parent. */
  lemma RightSibling(a: Address)
    requires a.n >= 1 && a.x % 2 == 0
    ensures Parent(Right(a)) == Parent(a)
    ensures ChildIndex(a) == 2 * (a.y % 2) && ChildIndex(Right(a)) == 1 + 2 * (a.y % 2)
  {
    assert (a.x + 1) / 2 == a.x / 2 && (a.x + 1) % 2 == 1;
  }

  /** A tile in an even row and the one below it are the top and bottom
      children in one column of the same parent. */
  lemma LowerSibling(a: Address)
    requires a.n >= 1 && a.y % 2 == 0
    ensures Parent(Below(a)) == Parent(a)
    ensures ChildIndex(a) == a.x % 2 && ChildIndex(Below(a)) == 2 + a.x % 2
  {
    assert (a.y + 1) / 2 == a.y / 2 && (a.y + 1) % 2 == 1;
  }

  /** A tile in an odd column and its right-hand neighbour: their parents
      stand side by side, and they are the matching children of the two. */
  lemma RightCousin(a: Address)
    requires a.n >= 1 && a.x % 2 == 1
    ensures Parent(Right(a)) == Right(Parent(a))
    ensures ChildIndex(a) == 1 + 2 * (a.y % 2) && ChildIndex(Right(a)) == 2 * (a.y % 2)
  {
    assert (a.x + 1) / 2 == a.x / 2 + 1 && (a.x + 1) % 2 == 0;
  }

  /** A tile in an odd row and the one below it: their parents stand one
      above the other, and they are the matching children of the two. */
  lemma LowerCousin(a: Address)
    requires a.n >= 1 && a.y % 2 == 1
    ensures Parent(Below(a)) == Below(Parent(a))
    ensures ChildIndex(a) == 2 + a.x % 2 && ChildIndex(Below(a)) == a.x % 2
  {
    assert (a.y + 1) / 2 == a.y / 2 + 1 && (a.y + 1) % 2 == 0;
  }

  /** Below depth 1, a tile in an odd column with an in-bounds right-hand
      neighbour has a parent with one too. */
  lemma RightOfParentInBounds(a: Address)
    requires a.n >= 2 && a.x % 2 == 1 && InBounds(Right(a))
    ensures Parent(a).n >= 1 && InBounds(Right(Parent(a)))
  {
    assert Pow2(a.n) == 2 * Pow2(a.n - 1);
    assert (a.x + 1) / 2 == a.x / 2 + 1;
  }

  /** Below depth 1, a tile in an odd row with an in-bounds lower neighbour
      has a parent with one too. */
  lemma BelowParentInBounds(a: Address)
    requires a.n >= 2 && a.y % 2 == 1 && InBounds(Below(a))
    ensures Parent(a).n >= 1 && InBounds(Below(Parent(a)))
  {
    assert Pow2(a.n) == 2 * Pow2(a.n - 1);
    assert (a.y + 1) / 2 == a.y / 2 + 1;
  }

  /** `b` lies in the subtree rooted at `a` (a tile is in its own subtree). */
  predicate Descends(b: Address, a: Address)
  {
    a.n <= b.n && b.x / Pow2(b.n - a.n) == a.x && b.y / Pow2(b.n - a.n) == a.y
  }

  // ---------------------------------------------------------------------------
  // Division facts

  lemma {:induction false} MulMonotone(d: int, a: int, b: int)
    requires d >= 0 && a <= b
    ensures d * a <= d * b
    decreases b - a
  {
    if a < b {
      MulMonotone(d, a, b - 1);
      assert d * b == d * (b - 1) + d;
    }
  }

  lemma DivUnique(v: int, d: int, q: int, r: int)
    requires d > 0 && v == d * q + r && 0 <= r < d
    ensures v / d == q
  {
    var q', r' := v / d, v % d;
    assert v == d * q' + r' && 0 <= r' < d;
    if q' < q {
      MulMonotone(d, q' + 1, q);
    } else if q < q' {
      MulMonotone(d, q + 1, q');
    }
  }

  lemma DivDiv(v: nat, p: nat, q: nat)
    requires p > 0 && q > 0
    ensures (v / p) / q == v / (p * q)
  {
    var q1, r1 := v / p, v % p;
    var q2, r2 := q1 / q, q1 % q;
    assert v == p * q1 + r1;
    assert q1 == q * q2 + r2;
    assert p * q1 == (p * q) * q2 + p * r2 by {
      assert p * (q * q2 + r2) == p * (q * q2) + p * r2;
    }
    MulMonotone(p, r2, q - 1);
    assert p * (q - 1) == p * q - p;
    DivUnique(v, p * q, q2, p * r2 + r1);
  }

  /** Dividing by 2^(m+1) is dividing by 2^m, then by 2, or by 2, then by 2^m. */
  lemma DivPow2Succ(v: nat, m: nat)
    ensures v / Pow2(m + 1) == (v / Pow2(m)) / 2
    ensures v / Pow2(m + 1) == (v / 2) / Pow2(m)
  {
    DivDiv(v, Pow2(m), 2);
    DivDiv(v, 2, Pow2(m));
    assert Pow2(m + 1) == Pow2(m) * 2 == 2 * Pow2(m);
  }

  /** `a` lies below a depth-1 tile on the main diagonal: the top bits of
      its column and row agree. */
  predicate OnMainDiagonal(a: Address)
    requires a.n >= 1
  {
    a.x / Pow2(a.n - 1) == a.y / Pow2(a.n - 1)
  }

  /** The top bit of each coordinate names the same depth-1 ancestor for an
      address and for its parent. */
  lemma TopBitsOfParent(a: Address)
    requires a.n >= 2
    ensures a.x / Pow2(a.n - 1) == Parent(a).x / Pow2(Parent(a).n - 1)
    ensures a.y / Pow2(a.n - 1) == Parent(a).y / Pow2(Parent(a).n - 1)
    ensures OnMainDiagonal(a) == OnMainDiagonal(Parent(a))
  {
    DivPow2Succ(a.x, a.n - 2);
    DivPow2Succ(a.y, a.n - 2);
  }

  lemma DivBelowTwice(v: nat, p: nat)
    requires p > 0 && v < 2 * p
    ensures v / p < 2
  {
  }

  // ---------------------------------------------------------------------------
  // The subtree relation and the quadrant split

  lemma DescendsRefl(a: Address)
    ensures Descends(a, a)
  {
  }

  lemma SameDepthDescends(b: Address, a: Address)
    requires Descends(b, a) && b.n == a.n
    ensures b == a
  {
  }

  /** Whatever lies under a child of `t` lies under `t`. */
  lemma DescendsFromChild(b: Address, t: Address, j: nat)
    requires j < 4 && Descends(b, Children(t)[j])
    ensures Descends(b, t)
  {
    var c := Children(t)[j];
    var m := b.n - c.n;
    DivPow2Succ(b.x, m);
    DivPow2Succ(b.y, m);
    assert b.n - t.n == m + 1;
  }

  /** A child of `t` lying under `a`, other than `a` itself, has `t` under `a` too. */
  lemma ParentDescends(t: Address, j: nat, a: Address)
    requires j < 4 && Descends(Children(t)[j], a) && Children(t)[j] != a
    ensures Descends(t, a)
  {
    var c := Children(t)[j];
    if c.n == a.n {
      SameDepthDescends(c, a);
    }
    var m := t.n - a.n;
    DivPow2Succ(c.x, m);
    DivPow2Succ(c.y, m);
    assert c.n - a.n == m + 1;
  }

  /** A proper descendant of `t` lies under exactly the child of `t` chosen by
      the next bits of its column and row. */
  lemma DescendsViaChild(b: Address, t: Address) returns (j: nat)
    requires Descends(b, t) && b != t
    ensures j < 4 && Descends(b, Children(t)[j])
  {
    if b.n == t.n {
      SameDepthDescends(b, t);
    }
    var m := b.n - t.n - 1;
    var qx, qy := b.x / Pow2(m), b.y / Pow2(m);
    DivPow2Succ(b.x, m);
    DivPow2Succ(b.y, m);
    assert qx / 2 == t.x && qy / 2 == t.y;
    var c := Address(t.n + 1, qx, qy);
    j := ChildIndex(c);
    ChildOfParent(c);
    assert Parent(c) == t;
  }

  // ---------------------------------------------------------------------------
  // The work list of addresses

  /** Number of tiles in the subtree of a depth-`n` tile when children are
      expanded only below depth `d`. */
  function SubtreeSize(n: nat, d: nat): (r: nat)
    decreases d - n
  {
    if n >= d then 1 else 1 + 4 * SubtreeSize(n + 1, d)
  }

  /** Closed form: a subtree spanning depths n..d holds 1 + 4 + ... + 4^(d-n) tiles. */
  lemma {:induction false} SubtreeSizeClosedForm(n: nat, d: nat)
    requires n <= d
    ensures 3 * SubtreeSize(n, d) + 1 == Pow4(d - n + 1)
    decreases d - n
  {
    if n < d {
      SubtreeSizeClosedForm(n + 1, d);
      assert Pow4(d - n + 1) == 4 * Pow4(d - n);
    } else {
      assert Pow4(1) == 4;
    }
  }

  /** Number of tiles still to be processed for a work list. */
  function Pending(todo: seq<Address>, d: nat): nat
  {
    if todo == [] then 0 else Pending(todo[..|todo| - 1], d) + SubtreeSize(todo[|todo| - 1].n, d)
  }

  lemma {:induction false} PendingAppend(s: seq<Address>, t: seq<Address>, d: nat)
    ensures Pending(s + t, d) == Pending(s, d) + Pending(t, d)
    decreases |t|
  {
    if t == [] {
      assert s + t == s;
    } else {
      assert (s + t)[..|s + t| - 1] == s + t[..|t| - 1];
      PendingAppend(s, t[..|t| - 1], d);
    }
  }

  /** A work list of same-depth entries holds that many equal subtrees. */
  lemma {:induction false} PendingLevel(s: seq<Address>, n: nat, d: nat)
    requires forall k :: 0 <= k < |s| ==> s[k].n == n
    ensures Pending(s, d) == |s| * SubtreeSize(n, d)
    decreases |s|
  {
    if s != [] {
      PendingLevel(s[..|s| - 1], n, d);
    }
  }

  /** One step of the traversal on addresses: pop the last entry and, when it
      is above depth `d`, push its four children. */
  function Expand(todo: seq<Address>, d: nat): (r: seq<Address>)
    requires |todo| > 0
  {
    var t := todo[|todo| - 1];
    todo[..|todo| - 1] + (if t.n < d then Children(t) else [])
  }

  ghost predicate AllInRange(s: seq<Address>, d: nat)
  {
    forall i :: 0 <= i < |s| ==> InRange(s[i], d)
  }

  ghost predicate NoRepeats(s: seq<Address>)
  {
    forall i, j :: 0 <= i < j < |s| ==> s[i] != s[j]
  }

  /** No processed address lies in a pending subtree. */
  ghost predicate Unreached(done: seq<Address>, todo: seq<Address>)
  {
    forall i, k :: 0 <= i < |done| && 0 <= k < |todo| ==> !Descends(done[i], todo[k])
  }

  /** No pending entry lies in the subtree of another. */
  ghost predicate Disjoint(todo: seq<Address>)
  {
    forall k, l :: 0 <= k < |todo| && 0 <= l < |todo| && k != l ==> !Descends(todo[k], todo[l])
  }

  /** Every in-range address is processed or lies in a pending subtree. */
  ghost predicate Covered(done: seq<Address>, todo: seq<Address>, d: nat)
  {
    forall b :: InRange(b, d) ==> b in done || exists k :: 0 <= k < |todo| && Descends(b, todo[k])
  }

  /** The invariant of the traversal to depth `d`: `done` holds the addresses
      processed so far, `todo` the work list. */
  ghost predicate Partition(done: seq<Address>, todo: seq<Address>, d: nat)
  {
    && AllInRange(done, d) && AllInRange(todo, d)
    && NoRepeats(done)
    && Unreached(done, todo)
    && Disjoint(todo)
    && Covered(done, todo, d)
  }

  /** The four depth-1 addresses in the order the traversal seeds them. */
  const SeedAddresses := [Address(1, 0, 0), Address(1, 1, 0), Address(1, 1, 1), Address(1, 0, 1)]

  /** Every in-range address lies under the depth-1 address its top bits name. */
  lemma TopAncestor(b: Address) returns (k: nat)
    requires b.n >= 1 && InBounds(b)
    ensures k < 4 && Descends(b, SeedAddresses[k])
  {
    var m := b.n - 1;
    var p := Pow2(m);
    assert Pow2(b.n) == 2 * p;
    DivBelowTwice(b.x, p);
    DivBelowTwice(b.y, p);
    var qx, qy := b.x / p, b.y / p;
    var top := Address(1, qx, qy);
    assert Descends(b, top);
    if qy == 0 {
      k := qx;
    } else {
      k := 3 - qx;
    }
    assert SeedAddresses[k] == top;
  }

  lemma SeedsCover(d: nat)
    ensures Covered([], SeedAddresses, d)
  {
    forall b | InRange(b, d)
      ensures exists k :: 0 <= k < |SeedAddresses| && Descends(b, SeedAddresses[k])
    {
      var k := TopAncestor(b);
    }
  }

  /** Seeding the work list with the four depth-1 addresses establishes the
      invariant, with every tile still pending. */
  lemma InitialPartition(d: nat)
    requires d >= 1
    ensures Partition([], SeedAddresses, d)
    ensures Pending(SeedAddresses, d) == 4 * SubtreeSize(1, d)
  {
    SeedsCover(d);
    assert Pow2(1) == 2;
    PendingLevel(SeedAddresses, 1, d);
  }

  lemma PopUnreached(done: seq<Address>, todo: seq<Address>, d: nat)
    requires |todo| > 0 && Unreached(done, todo) && Disjoint(todo)
    ensures Unreached(done + [todo[|todo| - 1]], Expand(todo, d))
  {
    var t := todo[|todo| - 1];
    var rest := todo[..|todo| - 1];
    var done', todo' := done + [t], Expand(todo, d);
    forall i, k | 0 <= i < |done'| && 0 <= k < |todo'|
      ensures !Descends(done'[i], todo'[k])
    {
      if k >= |rest| {
        if i < |done| && Descends(done'[i], todo'[k]) {
          DescendsFromChild(done[i], t, k - |rest|);
        }
      } else if i == |done| {
        assert todo[k] == todo'[k];
      } else {
        assert todo[k] == todo'[k];
      }
    }
  }

  lemma PopDisjoint(todo: seq<Address>, d: nat)
    requires |todo| > 0 && Disjoint(todo)
    ensures Disjoint(Expand(todo, d))
  {
    var t := todo[|todo| - 1];
    var rest := todo[..|todo| - 1];
    var todo' := Expand(todo, d);
    forall k, l | 0 <= k < |todo'| && 0 <= l < |todo'| && k != l
      ensures !Descends(todo'[k], todo'[l])
    {
      if k >= |rest| && l >= |rest| {
        if Descends(todo'[k], todo'[l]) {
          SameDepthDescends(todo'[k], todo'[l]);
        }
      } else if k >= |rest| {
        var j := k - |rest|;
        assert todo'[l] == todo[l];
        if Descends(todo'[k], todo'[l]) {
          if todo'[k] == todo'[l] {
            DescendsRefl(todo'[k]);
            DescendsFromChild(todo'[k], t, j);
          } else {
            ParentDescends(t, j, todo'[l]);
          }
        }
      } else if l >= |rest| {
        assert todo'[k] == todo[k];
        if Descends(todo'[k], todo'[l]) {
          DescendsFromChild(todo'[k], t, l - |rest|);
        }
      } else {
        assert todo'[k] == todo[k] && todo'[l] == todo[l];
      }
    }
  }

  lemma PopCovered(done: seq<Address>, todo: seq<Address>, d: nat)
    requires |todo| > 0 && Covered(done, todo, d)
    ensures Covered(done + [todo[|todo| - 1]], Expand(todo, d), d)
  {
    var t := todo[|todo| - 1];
    var rest := todo[..|todo| - 1];
    var done', todo' := done + [t], Expand(todo, d);
    forall b | InRange(b, d)
      ensures b in done' || exists k :: 0 <= k < |todo'| && Descends(b, todo'[k])
    {
      if b !in done {
        var k :| 0 <= k < |todo| && Descends(b, todo[k]);
        if k < |rest| {
          assert todo'[k] == todo[k];
        } else if b != t {
          var j := DescendsViaChild(b, t);
          assert t.n < b.n <= d;
          assert todo'[|rest| + j] == Children(t)[j];
        }
      }
    }
  }

  lemma PopInRange(todo: seq<Address>, d: nat)
    requires |todo| > 0 && AllInRange(todo, d)
    ensures AllInRange(Expand(todo, d), d)
  {
    var t := todo[|todo| - 1];
    var rest := todo[..|todo| - 1];
    var todo' := Expand(todo, d);
    forall k | 0 <= k < |todo'| ensures InRange(todo'[k], d) {
      if k < |rest| { assert todo'[k] == todo[k]; }
    }
  }

  lemma PopNoRepeats(done: seq<Address>, todo: seq<Address>)
    requires |todo| > 0 && NoRepeats(done) && Unreached(done, todo)
    ensures NoRepeats(done + [todo[|todo| - 1]])
  {
    var t := todo[|todo| - 1];
    DescendsRefl(t);
    assert forall i :: 0 <= i < |done| ==> done[i] != t;
  }

  lemma PopPending(todo: seq<Address>, d: nat)
    requires |todo| > 0 && AllInRange(todo, d)
    ensures Pending(Expand(todo, d), d) + 1 == Pending(todo, d)
  {
    var t := todo[|todo| - 1];
    var rest := todo[..|todo| - 1];
    var kids := if t.n < d then Children(t) else [];
    assert Expand(todo, d) == rest + kids;
    assert InRange(t, d);
    PendingAppend(rest, kids, d);
    if t.n < d {
      PendingLevel(kids, t.n + 1, d);
    }
  }

  /** One traversal step keeps the invariant and finishes exactly one tile. */
  lemma PopStep(done: seq<Address>, todo: seq<Address>, d: nat)
    requires |todo| > 0 && Partition(done, todo, d)
    ensures Partition(done + [todo[|todo| - 1]], Expand(todo, d), d)
    ensures Pending(Expand(todo, d), d) + 1 == Pending(todo, d)
  {
    var done' := done + [todo[|todo| - 1]];
    assert AllInRange(done', d) by {
      assert forall i :: 0 <= i < |done| ==> done'[i] == done[i];
    }
    PopInRange(todo, d);
    PopNoRepeats(done, todo);
    PopUnreached(done, todo, d);
    PopDisjoint(todo, d);
    PopCovered(done, todo, d);
    PopPending(todo, d);
  }

  /** Once the work list is empty, the processed addresses are exactly the
      in-range ones. */
  lemma FinalPartition(done: seq<Address>, d: nat)
    requires Partition(done, [], d)
    ensures forall b :: InRange(b, d) <==> b in done
  {
  }
}
