/** The search tree of DMA regions of an accelerator port, drivers/fpga/dfl-afu-dma-region.c. */
module DmaRegion {
  import opened Common

  const U64: nat := 0x1_0000_0000_0000_0000
  const PAGE_SIZE: nat := 4096
  const EINVAL: int := 22
  const ENOMEM: int := 12
  const EFAULT: int := 14
  const EBUSY: int := 16
  const EEXIST: int := 17

  datatype Region = Region(iova: nat, length: nat, inUse: bool)

  function End(r: Region): nat {
    r.iova + r.length
  }

  /** A mapped region: not empty and below the end of the address space. */
  predicate Sane(r: Region) {
    r.length > 0 && End(r) < U64
  }

  /** dma_region_check_iova, with its 64-bit sums. */
  predicate Check(r: Region, iova: nat, size: nat) {
    if size == 0 && r.iova != iova then
      false
    else
      r.iova <= iova && (r.length + r.iova) % U64 >= (iova + size) % U64
  }

  /** What it is for: an area inside the region, or with size 0 the region that starts there. */
  predicate Covers(r: Region, iova: nat, size: nat) {
    if size == 0 then r.iova == iova else r.iova <= iova && iova + size <= End(r)
  }

  lemma CheckCovers(r: Region, iova: nat, size: nat)
    requires Sane(r) && iova + size < U64
    ensures Check(r, iova, size) == Covers(r, iova, size)
  {
  }

  /** The check means containment in every region exactly for areas that do not run past the end of the
      address space. */
  lemma CheckExact(iova: nat, size: nat)
    requires iova < U64 && size < U64
    ensures (forall r: Region :: Sane(r) ==> Check(r, iova, size) == Covers(r, iova, size)) <==> iova + size < U64
  {
    if iova + size < U64 {
      forall r: Region | Sane(r)
        ensures Check(r, iova, size) == Covers(r, iova, size)
      {
        CheckCovers(r, iova, size);
      }
    } else {
      var wrapped := iova + size - U64;
      var r := Region(0, if wrapped == 0 then 1 else wrapped, false);
      assert (iova + size) % U64 == wrapped;
      assert Sane(r) && Check(r, iova, size) && !Covers(r, iova, size);
    }
  }

  /** One byte at the very end of the address space passes for part of a page at its start. */
  lemma WrappedAreaPasses()
    ensures Sane(Region(0, PAGE_SIZE, false))
    ensures Check(Region(0, PAGE_SIZE, false), U64 - 1, 1) && !Covers(Region(0, PAGE_SIZE, false), U64 - 1, 1)
  {
  }

  /** A region that ends exactly at the end of the address space is not found by its own start. */
  lemma TopRegionLost(r: Region)
    requires 0 < r.length < U64 && End(r) <= U64
    ensures Check(r, r.iova, 0) <==> End(r) < U64
  {
  }

  // ---------------------------------------------------------------- the tree

  datatype Tree = Leaf | Node(left: Tree, region: Region, right: Tree)

  function InOrder(t: Tree): seq<Region> {
    match t
    case Leaf => []
    case Node(l, r, rt) => InOrder(l) + [r] + InOrder(rt)
  }

  /** A search tree of regions, by its in-order sequence: they start at ascending addresses. */
  predicate Ascending(s: seq<Region>) {
    (forall i :: 0 <= i < |s| ==> Sane(s[i])) && forall i, j :: 0 <= i < j < |s| ==> s[i].iova < s[j].iova
  }

  /** A search tree of pairwise disjoint regions. */
  predicate Ordered(s: seq<Region>) {
    (forall i :: 0 <= i < |s| ==> Sane(s[i])) && forall i, j :: 0 <= i < j < |s| ==> End(s[i]) <= s[j].iova
  }

  /** Regions may overlap, but none ends before one that starts earlier. */
  predicate EndsAscend(s: seq<Region>) {
    forall i, j :: 0 <= i < j < |s| ==> End(s[i]) <= End(s[j])
  }

  /** Trees in which a search of this size finds its way: by start alone in every search tree. */
  predicate Findable(s: seq<Region>, size: nat) {
    Ascending(s) && (size == 0 || EndsAscend(s))
  }

  /** Trees in which there is only one region for it to find. */
  predicate Searchable(s: seq<Region>, size: nat) {
    Ascending(s) && (size == 0 || Ordered(s))
  }

  lemma OrderedAscends(s: seq<Region>)
    requires Ordered(s)
    ensures Ascending(s)
  {
    forall i, j | 0 <= i < j < |s|
      ensures s[i].iova < s[j].iova
    {
      assert Sane(s[i]);
    }
  }

  lemma OrderedEndsAscend(s: seq<Region>)
    requires Ordered(s)
    ensures EndsAscend(s)
  {
    forall i, j | 0 <= i < j < |s|
      ensures End(s[i]) <= End(s[j])
    {
      assert Sane(s[j]);
    }
  }

  predicate Disjoint(a: Region, b: Region) {
    End(a) <= b.iova || End(b) <= a.iova
  }

  lemma AscendingSplit(a: seq<Region>, b: seq<Region>)
    ensures Ascending(a + b) <==> Ascending(a) && Ascending(b) && forall x, y :: x in a && y in b ==> x.iova < y.iova
  {
    var s := a + b;
    if Ascending(s) {
      assert forall i :: 0 <= i < |a| ==> a[i] == s[i];
      assert forall i :: 0 <= i < |b| ==> b[i] == s[|a| + i];
    }
  }

  lemma AscendingParts(l: seq<Region>, r: Region, rt: seq<Region>)
    ensures Ascending(l + [r] + rt) <==>
            Ascending(l) && Ascending(rt) && Sane(r) && (forall x :: x in l ==> x.iova < r.iova) &&
            (forall x :: x in rt ==> r.iova < x.iova) && (forall x, y :: x in l && y in rt ==> x.iova < y.iova)
  {
    AscendingSplit(l + [r], rt);
    AscendingSplit(l, [r]);
    assert Ascending([r]) <==> Sane(r) by { assert Ascending([r]) ==> Sane([r][0]); }
    hide Ascending; hide Sane;
    assert forall x :: x in l + [r] <==> x in l || x == r;
  }

  lemma OrderedSplit(a: seq<Region>, b: seq<Region>)
    ensures Ordered(a + b) <==> Ordered(a) && Ordered(b) && forall x, y :: x in a && y in b ==> End(x) <= y.iova
  {
    var s := a + b;
    if Ordered(s) {
      assert forall i :: 0 <= i < |a| ==> a[i] == s[i];
      assert forall i :: 0 <= i < |b| ==> b[i] == s[|a| + i];
    }
  }

  lemma OrderedParts(l: seq<Region>, r: Region, rt: seq<Region>)
    ensures Ordered(l + [r] + rt) <==>
            Ordered(l) && Ordered(rt) && Sane(r) && (forall x :: x in l ==> End(x) <= r.iova) &&
            (forall x :: x in rt ==> End(r) <= x.iova) && (forall x, y :: x in l && y in rt ==> End(x) <= y.iova)
  {
    OrderedSplit(l + [r], rt);
    OrderedSplit(l, [r]);
    assert Ordered([r]) <==> Sane(r) by { assert Ordered([r]) ==> Sane([r][0]); }
    hide Ordered; hide Sane;
    assert forall x :: x in l + [r] <==> x in l || x == r;
  }

  lemma EndsSplit(a: seq<Region>, b: seq<Region>)
    ensures EndsAscend(a + b) <==>
            EndsAscend(a) && EndsAscend(b) && forall x, y :: x in a && y in b ==> End(x) <= End(y)
  {
    var s := a + b;
    if EndsAscend(s) {
      assert forall i :: 0 <= i < |a| ==> a[i] == s[i];
      assert forall i :: 0 <= i < |b| ==> b[i] == s[|a| + i];
    }
  }

  lemma EndsParts(l: seq<Region>, r: Region, rt: seq<Region>)
    ensures EndsAscend(l + [r] + rt) <==>
            EndsAscend(l) && EndsAscend(rt) && (forall x :: x in l ==> End(x) <= End(r)) &&
            (forall x :: x in rt ==> End(r) <= End(x)) && (forall x, y :: x in l && y in rt ==> End(x) <= End(y))
  {
    EndsSplit(l + [r], rt);
    EndsSplit(l, [r]);
    assert EndsAscend([r]);
    hide EndsAscend;
    assert forall x :: x in l + [r] <==> x in l || x == r;
  }

  /** Where a region of a tree can be: at the root, or in the subtree its start points to. */
  lemma InSubtree(t: Tree, x: Region)
    requires t.Node? && Ascending(InOrder(t)) && x in InOrder(t)
    ensures x == t.region || (x in InOrder(t.left) && x.iova < t.region.iova) ||
            (x in InOrder(t.right) && x.iova > t.region.iova)
  {
    AscendingParts(InOrder(t.left), t.region, InOrder(t.right));
    hide Ascending;
  }

  lemma SubtreesAscending(t: Tree)
    requires t.Node? && Ascending(InOrder(t))
    ensures Ascending(InOrder(t.left)) && Ascending(InOrder(t.right)) && Sane(t.region)
  {
    AscendingParts(InOrder(t.left), t.region, InOrder(t.right));
    hide Ascending;
  }

  lemma SubtreesOrdered(t: Tree)
    requires t.Node? && Ordered(InOrder(t))
    ensures Ordered(InOrder(t.left)) && Ordered(InOrder(t.right)) && Sane(t.region)
  {
    OrderedParts(InOrder(t.left), t.region, InOrder(t.right));
    hide Ordered;
  }

  lemma SubtreesFindable(t: Tree, size: nat)
    requires t.Node? && Findable(InOrder(t), size)
    ensures Findable(InOrder(t.left), size) && Findable(InOrder(t.right), size) && Sane(t.region)
    ensures size > 0 ==> forall x :: x in InOrder(t.left) ==> End(x) <= End(t.region)
  {
    SubtreesAscending(t);
    if size > 0 { EndsParts(InOrder(t.left), t.region, InOrder(t.right)); }
    hide Ascending; hide EndsAscend; hide Sane;
  }

  lemma SubtreesSearchable(t: Tree, size: nat)
    requires t.Node? && Searchable(InOrder(t), size)
    ensures Searchable(InOrder(t.left), size) && Searchable(InOrder(t.right), size) && Sane(t.region)
  {
    hide Ascending; hide Ordered; hide Sane; hide InOrder;
    SubtreesAscending(t);
    if size > 0 { SubtreesOrdered(t); }
  }

  lemma SearchableFindable(s: seq<Region>, size: nat)
    requires Searchable(s, size)
    ensures Findable(s, size)
  {
    if size > 0 { OrderedEndsAscend(s); }
  }

  /** Two stored regions that share an address are the same region. */
  lemma SharedIsSame(s: seq<Region>, x: Region, y: Region)
    requires Ordered(s) && x in s && y in s && !Disjoint(x, y)
    ensures x == y
  {
    var i :| 0 <= i < |s| && s[i] == x;
    var j :| 0 <= j < |s| && s[j] == y;
    assert i == j || i < j || j < i;
  }

  /** No two regions of a search tree start at the same address. */
  lemma OneStart(s: seq<Region>, x: Region, y: Region)
    requires Ascending(s) && x in s && y in s && x.iova == y.iova
    ensures x == y
  {
    var i :| 0 <= i < |s| && s[i] == x;
    var j :| 0 <= j < |s| && s[j] == y;
    assert i == j || i < j || j < i;
  }

  /** At most one region of a searchable tree covers an area. */
  lemma CoverIsUnique(s: seq<Region>, x: Region, y: Region, iova: nat, size: nat)
    requires Searchable(s, size) && x in s && y in s && Covers(x, iova, size) && Covers(y, iova, size)
    ensures x == y
  {
    if size == 0 {
      OneStart(s, x, y);
    } else {
      SharedIsSame(s, x, y);
    }
  }

  /** A region that covers the area lies in the subtree the loop goes on with. */
  lemma SearchGoesOn(t: Tree, x: Region, iova: nat, size: nat)
    requires t.Node? && Findable(InOrder(t), size)
    requires x in InOrder(t) && Covers(x, iova, size) && !Covers(t.region, iova, size)
    ensures iova < t.region.iova ==> x in InOrder(t.left)
    ensures iova > t.region.iova ==> x in InOrder(t.right)
    ensures iova != t.region.iova
  {
    InSubtree(t, x);
    SubtreesFindable(t, size);
    hide Findable; hide InOrder;
  }

  // ---------------------------------------------------------------- insertion

  function NewNode(r: Region): Tree {
    Node(Leaf, r, Leaf)
  }

  /** The path from the root to the link under inspection, outermost first: the nodes passed, and whether
      the search went left. */
  datatype Turn = Turn(node: Tree, left: bool)

  function Plug(path: seq<Turn>, t: Tree): Tree
    requires forall i :: 0 <= i < |path| ==> path[i].node.Node?
    decreases |path|
  {
    if path == [] then
      t
    else
      var last := path[|path| - 1];
      Plug(path[..|path| - 1], if last.left then last.node.(left := t) else last.node.(right := t))
  }

  lemma PlugStep(path: seq<Turn>, t: Tree, left: bool, u: Tree)
    requires t.Node? && forall i :: 0 <= i < |path| ==> path[i].node.Node?
    ensures Plug(path + [Turn(t, left)], u) == Plug(path, if left then t.(left := u) else t.(right := u))
  {
    assert (path + [Turn(t, left)])[..|path|] == path;
  }

  /** The tree with a region added, None when a node on the way covers it or starts where it starts. */
  function Insert(t: Tree, r: Region): Option<Tree> {
    match t
    case Leaf => Some(NewNode(r))
    case Node(left, here, right) =>
      if Check(here, r.iova, r.length) || r.iova == here.iova then
        None
      else if r.iova < here.iova then
        (match Insert(left, r) case None => None case Some(u) => Some(t.(left := u)))
      else
        (match Insert(right, r) case None => None case Some(u) => Some(t.(right := u)))
  }

  predicate Blocks(x: Region, r: Region) {
    x.iova == r.iova || Covers(x, r.iova, r.length)
  }

  /** A region is refused only when a stored one covers it or starts where it starts, and always when one
      starts there. */
  lemma {:induction false} RefusedForCause(t: Tree, r: Region)
    requires Ascending(InOrder(t)) && Sane(r)
    ensures Insert(t, r).None? ==> exists x :: x in InOrder(t) && Blocks(x, r)
    ensures Insert(t, r).Some? ==> forall x :: x in InOrder(t) ==> x.iova != r.iova
  {
    if t.Node? {
      hide Check; hide Ascending;
      SubtreesAscending(t);
      CheckCovers(t.region, r.iova, r.length);
      assert t.region in InOrder(t);
      RefusedForCause(t.left, r);
      RefusedForCause(t.right, r);
      assert forall x :: x in InOrder(t.left) || x in InOrder(t.right) ==> x in InOrder(t);
      forall x | x in InOrder(t)
        ensures x == t.region || (x in InOrder(t.left) && x.iova < t.region.iova) ||
                (x in InOrder(t.right) && x.iova > t.region.iova)
      {
        InSubtree(t, x);
      }
      hide Covers;
    }
  }

  /** In a tree whose ends ascend with its starts a region is refused exactly when one already stored covers
      it or starts where it starts. */
  lemma {:induction false} RefusedExactly(t: Tree, r: Region)
    requires Ascending(InOrder(t)) && EndsAscend(InOrder(t)) && Sane(r)
    ensures Insert(t, r).None? <==> exists x :: x in InOrder(t) && Blocks(x, r)
  {
    RefusedForCause(t, r);
    if t.Node? {
      hide Check; hide EndsAscend; hide Ascending;
      SubtreesFindable(t, r.length);
      CheckCovers(t.region, r.iova, r.length);
      RefusedExactly(t.left, r);
      RefusedExactly(t.right, r);
      if x :| x in InOrder(t) && Blocks(x, r) && !Blocks(t.region, r) {
        BlockerBelow(t, x, r);
      }
      hide Blocks;
    }
  }

  lemma BlockerBelow(t: Tree, x: Region, r: Region)
    requires t.Node? && Ascending(InOrder(t)) && EndsAscend(InOrder(t)) && Sane(r)
    requires x in InOrder(t) && Blocks(x, r) && !Blocks(t.region, r)
    ensures if r.iova < t.region.iova then x in InOrder(t.left) else x in InOrder(t.right)
  {
    hide EndsAscend; hide Ascending;
    if x.iova == r.iova {
      InSubtree(t, x);
    } else {
      SearchGoesOn(t, x, r.iova, r.length);
    }
  }

  /** Where the new region lands: between those that start before it and those that start after it. */
  predicate LandsAt(s: seq<Region>, r: Region, k: nat) {
    k <= |s| && (forall i :: 0 <= i < k ==> s[i].iova < r.iova) && forall i :: k <= i < |s| ==> r.iova < s[i].iova
  }

  lemma LandsLeft(l: seq<Region>, m: Region, rt: seq<Region>, r: Region, k: nat)
    requires LandsAt(l, r, k) && r.iova < m.iova && forall i :: 0 <= i < |rt| ==> m.iova < rt[i].iova
    ensures LandsAt(l + [m] + rt, r, k)
    ensures l[..k] + [r] + l[k..] + [m] + rt == (l + [m] + rt)[..k] + [r] + (l + [m] + rt)[k..]
  {
    assert (l + [m] + rt)[..k] == l[..k];
    assert (l + [m] + rt)[k..] == l[k..] + [m] + rt;
  }

  lemma LandsRight(l: seq<Region>, m: Region, rt: seq<Region>, r: Region, k: nat)
    requires LandsAt(rt, r, k) && m.iova < r.iova && forall i :: 0 <= i < |l| ==> l[i].iova < m.iova
    ensures LandsAt(l + [m] + rt, r, |l| + 1 + k)
    ensures l + [m] + (rt[..k] + [r] + rt[k..]) == (l + [m] + rt)[..|l| + 1 + k] + [r] + (l + [m] + rt)[|l| + 1 + k..]
  {
    assert (l + [m] + rt)[..|l| + 1 + k] == l + [m] + rt[..k];
    assert (l + [m] + rt)[|l| + 1 + k..] == rt[k..];
  }

  /** Left of a node everything starts before it, right of it after it. */
  lemma Sides(t: Tree)
    requires t.Node? && Ascending(InOrder(t))
    ensures forall i :: 0 <= i < |InOrder(t.left)| ==> InOrder(t.left)[i].iova < t.region.iova
    ensures forall i :: 0 <= i < |InOrder(t.right)| ==> t.region.iova < InOrder(t.right)[i].iova
  {
    var l, rt := InOrder(t.left), InOrder(t.right);
    AscendingParts(l, t.region, rt);
    hide Ascending;
    assert forall i :: 0 <= i < |l| ==> l[i] in l;
    assert forall i :: 0 <= i < |rt| ==> rt[i] in rt;
  }

  lemma {:induction false} InsertLands(t: Tree, r: Region) returns (k: nat)
    requires Ascending(InOrder(t)) && Sane(r) && Insert(t, r).Some?
    ensures k <= |InOrder(t)| && LandsAt(InOrder(t), r, k)
    ensures InOrder(Insert(t, r).value) == InOrder(t)[..k] + [r] + InOrder(t)[k..]
  {
    k := 0;
    if t.Node? {
      hide Ascending; hide Check; hide LandsAt; hide Sane;
      var l, rt := InOrder(t.left), InOrder(t.right);
      SubtreesAscending(t);
      Sides(t);
      if r.iova < t.region.iova {
        k := InsertLands(t.left, r);
        LandsLeft(l, t.region, rt, r, k);
      } else {
        var j := InsertLands(t.right, r);
        LandsRight(l, t.region, rt, r, j);
        k := |l| + 1 + j;
      }
    }
  }

  /** An added region leaves a search tree; one of disjoint regions exactly when it is disjoint from all
      of them. */
  lemma AddedKeepsOrder(t: Tree, r: Region)
    requires Ascending(InOrder(t)) && Sane(r) && Insert(t, r).Some?
    ensures var u := InOrder(Insert(t, r).value);
      Ascending(u) && (forall x :: x in u <==> x == r || x in InOrder(t)) && |u| == |InOrder(t)| + 1 &&
      (Ordered(u) <==> Ordered(InOrder(t)) && forall x :: x in InOrder(t) ==> Disjoint(x, r))
  {
    hide Ascending; hide Ordered; hide LandsAt; hide Insert; hide InOrder; hide Disjoint;
    var k := InsertLands(t, r);
    AddedAt(InOrder(t), r, k);
    AddedAscends(InOrder(t), r, k);
  }

  lemma AddedAscends(s: seq<Region>, r: Region, k: nat)
    requires Ascending(s) && Sane(r) && LandsAt(s, r, k)
    ensures Ascending(s[..k] + [r] + s[k..])
    ensures forall x :: x in s[..k] + [r] + s[k..] <==> x == r || x in s
  {
    var a, b := s[..k], s[k..];
    assert s == a + b;
    AscendingSplit(a, b);
    AscendingParts(a, r, b);
    hide Ascending;
  }

  lemma AddedAt(s: seq<Region>, r: Region, k: nat)
    requires Ascending(s) && Sane(r) && LandsAt(s, r, k)
    ensures Ordered(s[..k] + [r] + s[k..]) <==> Ordered(s) && forall x :: x in s ==> Disjoint(x, r)
  {
    var a, b := s[..k], s[k..];
    assert s == a + b;
    OrderedSplit(a, b);
    OrderedParts(a, r, b);
    hide Ordered;
    assert forall x :: x in s <==> x in a || x in b;
    forall x | x in a
      ensures Disjoint(x, r) <==> End(x) <= r.iova
    {
      LandedBefore(s, r, k, x);
    }
    forall x | x in b
      ensures Disjoint(x, r) <==> End(r) <= x.iova
    {
      LandedAfter(s, r, k, x);
    }
    hide LandsAt; hide Disjoint; hide Ascending;
  }

  lemma LandedBefore(s: seq<Region>, r: Region, k: nat, x: Region)
    requires Ascending(s) && Sane(r) && LandsAt(s, r, k) && x in s[..k]
    ensures Disjoint(x, r) <==> End(x) <= r.iova
  {
    var i :| 0 <= i < k && s[i] == x;
    assert Sane(s[i]);
  }

  lemma LandedAfter(s: seq<Region>, r: Region, k: nat, x: Region)
    requires Ascending(s) && Sane(r) && LandsAt(s, r, k) && x in s[k..]
    ensures Disjoint(x, r) <==> End(r) <= x.iova
  {
    var i :| k <= i < |s| && s[i] == x;
    assert Sane(s[i]);
  }

  // ---------------------------------------------------------------- search and removal

  /** The first region of a list that covers an area. */
  function Scan(s: seq<Region>, iova: nat, size: nat): (r: Option<Region>)
    ensures r.Some? ==> r.value in s && Covers(r.value, iova, size)
    ensures r.None? ==> forall x :: x in s ==> !Covers(x, iova, size)
  {
    if s == [] then None else if Covers(s[0], iova, size) then Some(s[0]) else Scan(s[1..], iova, size)
  }

  lemma OnlyOneCovers(s: seq<Region>, x: Region, iova: nat, size: nat)
    requires Searchable(s, size) && x in s && Covers(x, iova, size)
    ensures Scan(s, iova, size) == Some(x)
  {
    hide Searchable; hide Covers;
    CoverIsUnique(s, x, Scan(s, iova, size).value, iova, size);
  }

  /** The region a walk along the links comes to. */
  function Search(t: Tree, iova: nat, size: nat): Option<Region> {
    match t
    case Leaf => None
    case Node(left, here, right) =>
      if Check(here, iova, size) then Some(here)
      else if iova < here.iova then Search(left, iova, size)
      else if iova > here.iova then Search(right, iova, size)
      else None
  }

  /** Following one link loses nothing. */
  lemma SearchStep(t: Tree, iova: nat, size: nat)
    requires t.Node? && Searchable(InOrder(t), size) && !Covers(t.region, iova, size)
    ensures Scan(InOrder(t), iova, size) ==
            if iova < t.region.iova then Scan(InOrder(t.left), iova, size)
            else if iova > t.region.iova then Scan(InOrder(t.right), iova, size)
            else None
  {
    hide Covers; hide Searchable; hide Findable;
    var found := Scan(InOrder(t), iova, size);
    SubtreesSearchable(t, size);
    SearchableFindable(InOrder(t), size);
    if found.Some? {
      SearchGoesOn(t, found.value, iova, size);
      if iova < t.region.iova {
        OnlyOneCovers(InOrder(t.left), found.value, iova, size);
      } else {
        OnlyOneCovers(InOrder(t.right), found.value, iova, size);
      }
    } else {
      assert forall x :: x in InOrder(t.left) ==> x in InOrder(t);
      assert forall x :: x in InOrder(t.right) ==> x in InOrder(t);
    }
  }

  /** A search finds what a scan finds: for a start address in every search tree, for an area in every
      tree of disjoint regions, as long as it does not run past the end of the address space. */
  lemma {:induction false} SearchIsScan(t: Tree, iova: nat, size: nat)
    requires Searchable(InOrder(t), size) && iova + size < U64
    ensures Search(t, iova, size) == Scan(InOrder(t), iova, size)
  {
    if t.Node? {
      hide Searchable; hide Covers; hide Check;
      SubtreesSearchable(t, size);
      CheckCovers(t.region, iova, size);
      assert t.region in InOrder(t);
      if Covers(t.region, iova, size) {
        OnlyOneCovers(InOrder(t), t.region, iova, size);
      } else {
        SearchStep(t, iova, size);
        SearchIsScan(t.left, iova, size);
        SearchIsScan(t.right, iova, size);
      }
    }
  }

  /** Searching agrees with scanning in every tree of disjoint regions exactly for such areas. */
  lemma SearchExact(iova: nat, size: nat)
    requires iova < U64 && size < U64
    ensures (forall t: Tree :: Ordered(InOrder(t)) ==> Search(t, iova, size) == Scan(InOrder(t), iova, size))
            <==> iova + size < U64
  {
    if iova + size < U64 {
      forall t: Tree | Ordered(InOrder(t))
        ensures Search(t, iova, size) == Scan(InOrder(t), iova, size)
      {
        OrderedAscends(InOrder(t));
        SearchIsScan(t, iova, size);
      }
    } else {
      var r := Region(0, if iova + size == U64 then 1 else iova + size - U64, false);
      SingleNode(r, iova, size);
      assert Ordered(InOrder(NewNode(r)));
      assert Search(NewNode(r), iova, size) != Scan(InOrder(NewNode(r)), iova, size);
    }
  }

  lemma SingleNode(r: Region, iova: nat, size: nat)
    requires Sane(r) && Check(r, iova, size) && !Covers(r, iova, size)
    ensures InOrder(NewNode(r)) == [r] && Ordered([r])
    ensures Search(NewNode(r), iova, size) == Some(r) && Scan([r], iova, size) == None
  {
    assert [r][1..] == [];
  }

  // ---------------------------------------------------------------- search among overlapping regions

  ghost predicate Covered(s: seq<Region>, iova: nat, size: nat) {
    exists x :: x in s && Covers(x, iova, size)
  }

  /** A search comes to a covering region, if there is one, wherever ends ascend with starts. */
  lemma {:induction false} SearchFinds(t: Tree, iova: nat, size: nat)
    requires Findable(InOrder(t), size) && iova + size < U64
    ensures Search(t, iova, size).Some? <==> Covered(InOrder(t), iova, size)
    ensures Search(t, iova, size).Some? ==>
      Search(t, iova, size).value in InOrder(t) && Covers(Search(t, iova, size).value, iova, size)
  {
    if t.Node? {
      hide Findable; hide Covers; hide Check;
      SubtreesFindable(t, size);
      CheckCovers(t.region, iova, size);
      assert t.region in InOrder(t);
      SearchFinds(t.left, iova, size);
      SearchFinds(t.right, iova, size);
      if x :| x in InOrder(t) && Covers(x, iova, size) && !Covers(t.region, iova, size) {
        SearchGoesOn(t, x, iova, size);
      }
    }
  }

  /** Any search tree of these regions finds one for every area that some region covers. */
  ghost predicate FindsCovered(s: seq<Region>) {
    forall t: Tree, iova: nat, size: nat ::
      InOrder(t) == s && 0 < size && iova + size < U64 && Covered(s, iova, size) ==> Search(t, iova, size).Some?
  }

  /** Any search tree of these regions returns for every area what a scan returns. */
  ghost predicate SearchesLikeScan(s: seq<Region>) {
    forall t: Tree, iova: nat, size: nat ::
      InOrder(t) == s && 0 < size && iova + size < U64 ==> Search(t, iova, size) == Scan(s, iova, size)
  }

  function Spine(s: seq<Region>): (t: Tree)
    ensures InOrder(t) == s
  {
    if s == [] then Leaf else Node(Leaf, s[0], Spine(s[1..]))
  }

  /** The search tree of these regions with number j at the root, where an area that starts with it is looked
      for there and nowhere else. */
  lemma RootDecides(s: seq<Region>, j: nat, size: nat) returns (t: Tree)
    requires j < |s|
    ensures InOrder(t) == s
    ensures Search(t, s[j].iova, size) == if Check(s[j], s[j].iova, size) then Some(s[j]) else None
  {
    t := Node(Spine(s[..j]), s[j], Spine(s[j + 1..]));
    assert s == s[..j] + [s[j]] + s[j + 1..];
  }

  /** Every covered area is found in every search tree of the regions exactly when their ends ascend with
      their starts. */
  lemma CoveredFoundExactly(s: seq<Region>)
    requires Ascending(s)
    ensures FindsCovered(s) <==> EndsAscend(s)
  {
    if EndsAscend(s) {
      forall t: Tree, iova: nat, size: nat |
        InOrder(t) == s && 0 < size && iova + size < U64 && Covered(s, iova, size)
        ensures Search(t, iova, size).Some?
      {
        SearchFinds(t, iova, size);
      }
    } else {
      var i, j :| 0 <= i < j < |s| && End(s[i]) > End(s[j]);
      var t := HiddenBehind(s, i, j);
    }
  }

  /** A region hides the rest of one that starts before it and ends after it. */
  lemma HiddenBehind(s: seq<Region>, i: nat, j: nat) returns (t: Tree)
    requires Ascending(s) && i < j < |s| && End(s[i]) > End(s[j])
    ensures var size := End(s[i]) - s[j].iova;
      size > 0 && s[j].iova + size < U64 && Covered(s, s[j].iova, size) &&
      InOrder(t) == s && Search(t, s[j].iova, size).None?
  {
    assert Sane(s[i]) && Sane(s[j]);
    var iova, size := s[j].iova, End(s[i]) - s[j].iova;
    assert Covers(s[i], iova, size);
    CheckCovers(s[j], iova, size);
    t := RootDecides(s, j, size);
  }

  /** The region found for an area is the same in every search tree of the regions, and the one a scan finds,
      exactly when they are disjoint. */
  lemma ScanAgreesExactly(s: seq<Region>)
    requires Ascending(s)
    ensures SearchesLikeScan(s) <==> Ordered(s)
  {
    if Ordered(s) {
      forall t: Tree, iova: nat, size: nat | InOrder(t) == s && 0 < size && iova + size < U64
        ensures Search(t, iova, size) == Scan(s, iova, size)
      {
        SearchIsScan(t, iova, size);
      }
    } else {
      var i, j :| 0 <= i < j < |s| && End(s[i]) > s[j].iova;
      var t := FoundInstead(s, i, j);
    }
  }

  /** Where two regions overlap, some tree finds the later one and a scan an earlier one. */
  lemma FoundInstead(s: seq<Region>, i: nat, j: nat) returns (t: Tree)
    requires Ascending(s) && i < j < |s| && End(s[i]) > s[j].iova
    ensures InOrder(t) == s && s[j].iova + 1 < U64 && Search(t, s[j].iova, 1) != Scan(s, s[j].iova, 1)
  {
    assert Sane(s[i]) && Sane(s[j]);
    var iova := s[j].iova;
    t := RootDecides(s, j, 1);
    CheckCovers(s[j], iova, 1);
    ScanIsFirst(s, i, iova, 1);
  }

  /** A scan stops no later than at a covering region. */
  lemma {:induction false} ScanIsFirst(s: seq<Region>, i: nat, iova: nat, size: nat)
    requires i < |s| && Covers(s[i], iova, size)
    ensures Scan(s, iova, size).Some? && exists k :: 0 <= k <= i && s[k] == Scan(s, iova, size).value
  {
    if Covers(s[0], iova, size) {
      assert s[0] == Scan(s, iova, size).value;
    } else {
      ScanIsFirst(s[1..], i - 1, iova, size);
      var k :| 0 <= k <= i - 1 && s[1..][k] == Scan(s[1..], iova, size).value;
      assert s[k + 1] == Scan(s, iova, size).value;
    }
  }

  /** An accepted region leaves ends ascending exactly when they were and it does not end after a region
      that starts after it. */
  lemma AddedKeepsEnds(t: Tree, r: Region)
    requires Ascending(InOrder(t)) && Sane(r) && Insert(t, r).Some?
    ensures EndsAscend(InOrder(Insert(t, r).value)) <==>
            EndsAscend(InOrder(t)) && forall x :: x in InOrder(t) && r.iova < x.iova ==> End(r) <= End(x)
  {
    hide Insert; hide InOrder; hide Ascending; hide EndsAscend;
    var s := InOrder(t);
    var k := InsertLands(t, r);
    var a, b := s[..k], s[k..];
    assert s == a + b;
    EndsParts(a, r, b);
    EndsSplit(a, b);
    assert forall x :: x in b <==> x in s && r.iova < x.iova;
    if EndsAscend(s) {
      forall x | x in a
        ensures End(x) <= End(r)
      {
        EarlierEndsBefore(t, r, x);
      }
    }
  }

  /** Where areas are found, a region that was not refused ends after those that start before it. */
  lemma EarlierEndsBefore(t: Tree, r: Region, x: Region)
    requires Ascending(InOrder(t)) && EndsAscend(InOrder(t)) && Sane(r) && Insert(t, r).Some?
    requires x in InOrder(t) && x.iova < r.iova
    ensures End(x) <= End(r)
  {
    RefusedExactly(t, r);
    assert !Blocks(x, r);
  }

  /** A region mapped over a smaller one is accepted, and its upper part is not found. */
  lemma OverlapHides()
    ensures var small, large := Region(0x5000, 0x1000, false), Region(0, 0x1_0000, false);
      var t := Insert(NewNode(small), large);
      t == Some(Node(NewNode(large), small, Leaf)) && Search(t.value, 0x7000, 0x1000) == None &&
      Covers(large, 0x7000, 0x1000)
  {
  }

  function Join(l: Tree, r: Tree): (t: Tree)
    ensures InOrder(t) == InOrder(l) + InOrder(r)
  {
    match l
    case Leaf => r
    case Node(ll, here, lr) =>
      assert InOrder(ll) + [here] + (InOrder(lr) + InOrder(r)) == InOrder(l) + InOrder(r);
      Node(ll, here, Join(lr, r))
  }

  /** The tree without a region's node. */
  function Erase(t: Tree, r: Region): Tree {
    match t
    case Leaf => Leaf
    case Node(left, here, right) =>
      if here == r then Join(left, right)
      else if r.iova < here.iova then t.(left := Erase(left, r))
      else t.(right := Erase(right, r))
  }

  lemma {:induction false} EraseTakesOne(t: Tree, r: Region) returns (k: nat)
    requires Ascending(InOrder(t)) && r in InOrder(t)
    ensures k < |InOrder(t)| && InOrder(t)[k] == r
    ensures InOrder(Erase(t, r)) == InOrder(t)[..k] + InOrder(t)[k + 1..]
  {
    hide Ascending; hide Sane; hide InOrder;
    InOrderNode(t);
    var l, rt := InOrder(t.left), InOrder(t.right);
    SubtreesAscending(t);
    InSubtree(t, r);
    if t.region == r {
      k := |l|;
      GapHere(l, t.region, rt);
    } else if r.iova < t.region.iova {
      k := EraseTakesOne(t.left, r);
      InOrderNode(t.(left := Erase(t.left, r)));
      GapLeft(l, t.region, rt, k);
    } else {
      var j := EraseTakesOne(t.right, r);
      InOrderNode(t.(right := Erase(t.right, r)));
      GapRight(l, t.region, rt, j);
      k := |l| + 1 + j;
    }
  }

  lemma InOrderNode(t: Tree)
    ensures if t.Leaf? then InOrder(t) == [] else InOrder(t) == InOrder(t.left) + [t.region] + InOrder(t.right)
  {
  }

  lemma GapHere(l: seq<Region>, m: Region, rt: seq<Region>)
    ensures (l + [m] + rt)[|l|] == m && (l + [m] + rt)[..|l|] + (l + [m] + rt)[|l| + 1..] == l + rt
  {
  }

  lemma GapLeft(l: seq<Region>, m: Region, rt: seq<Region>, k: nat)
    requires k < |l|
    ensures (l + [m] + rt)[k] == l[k]
    ensures l[..k] + l[k + 1..] + [m] + rt == (l + [m] + rt)[..k] + (l + [m] + rt)[k + 1..]
  {
  }

  lemma GapRight(l: seq<Region>, m: Region, rt: seq<Region>, k: nat)
    requires k < |rt|
    ensures (l + [m] + rt)[|l| + 1 + k] == rt[k]
    ensures l + [m] + (rt[..k] + rt[k + 1..]) == (l + [m] + rt)[..|l| + 1 + k] + (l + [m] + rt)[|l| + 1 + k + 1..]
  {
    assert (l + [m] + rt)[..|l| + 1 + k] == l + [m] + rt[..k];
    assert (l + [m] + rt)[|l| + 1 + k + 1..] == rt[k + 1..];
  }

  /** Removing a region leaves all the others, in a search tree still, and disjoint if they were. */
  lemma RemovedKeepsOrder(t: Tree, r: Region)
    requires Ascending(InOrder(t)) && r in InOrder(t)
    ensures Ascending(InOrder(Erase(t, r))) && (Ordered(InOrder(t)) ==> Ordered(InOrder(Erase(t, r))))
    ensures forall x :: x in InOrder(Erase(t, r)) <==> x in InOrder(t) && x != r
    ensures Pages(InOrder(t)) == Pages(InOrder(Erase(t, r))) + r.length / PAGE_SIZE
  {
    hide Ascending; hide Ordered; hide InOrder; hide Erase; hide Pages; hide Sane;
    var s := InOrder(t);
    var k := EraseTakesOne(t, r);
    var a, b := s[..k], s[k + 1..];
    assert s == a + [r] + b;
    AscendingParts(a, r, b);
    AscendingSplit(a, b);
    OrderedParts(a, r, b);
    OrderedSplit(a, b);
    RemovedPages(a, r, b);
    assert forall x :: x in s <==> x in a || x == r || x in b;
  }

  lemma RemovedPages(a: seq<Region>, r: Region, b: seq<Region>)
    ensures Pages(a + [r] + b) == Pages(a + b) + r.length / PAGE_SIZE
  {
    PagesSplit(a, [r] + b);
    PagesSplit([r], b);
    PagesSplit(a, b);
    assert a + ([r] + b) == a + [r] + b;
  }

  /** Adding and then removing a region gives back the same regions. */
  lemma AddThenRemove(t: Tree, r: Region)
    requires Ascending(InOrder(t)) && Sane(r) && Insert(t, r).Some?
    ensures InOrder(Erase(Insert(t, r).value, r)) == InOrder(t)
  {
    hide Ascending; hide Ordered; hide Insert; hide Erase; hide InOrder; hide LandsAt; hide Sane; hide Disjoint;
    AddedKeepsOrder(t, r);
    var u := Insert(t, r).value;
    var k := InsertLands(t, r);
    var j := EraseTakesOne(u, r);
    var s := InOrder(t);
    assert InOrder(u)[k] == r;
    Distinct(InOrder(u), j, k);
    assert InOrder(u)[..k] == s[..k] && InOrder(u)[k + 1..] == s[k..];
    assert s == s[..k] + s[k..];
  }

  lemma Distinct(s: seq<Region>, i: nat, j: nat)
    requires Ascending(s) && i < |s| && j < |s| && s[i] == s[j]
    ensures i == j
  {
  }

  /** Pages pinned for a list of regions. */
  function Pages(s: seq<Region>): nat {
    if s == [] then 0 else s[0].length / PAGE_SIZE + Pages(s[1..])
  }

  lemma {:induction false} PagesSplit(a: seq<Region>, b: seq<Region>)
    ensures Pages(a + b) == Pages(a) + Pages(b)
  {
    if a == [] {
      assert a + b == b;
    } else {
      assert (a + b)[1..] == a[1..] + b;
      PagesSplit(a[1..], b);
    }
  }

  lemma AddedPages(t: Tree, r: Region)
    requires Ascending(InOrder(t)) && Sane(r) && Insert(t, r).Some?
    ensures Pages(InOrder(Insert(t, r).value)) == Pages(InOrder(t)) + r.length / PAGE_SIZE
  {
    hide Ascending; hide Insert; hide InOrder; hide LandsAt; hide Pages;
    var s := InOrder(t);
    var k := InsertLands(t, r);
    assert s == s[..k] + s[k..];
    RemovedPages(s[..k], r, s[k..]);
  }

  // ---------------------------------------------------------------- the driver

  class Afu {
    var root: Tree
    /** Pages accounted to the user, and DMA mappings that exist. */
    var lockedPages: nat
    var mappings: multiset<nat>

    /** The stored regions form a search tree, and they are exactly what is pinned and mapped. */
    ghost predicate Valid()
      reads this
    {
      Ascending(InOrder(root)) && lockedPages == Pages(InOrder(root)) &&
      forall a: nat :: mappings[a] == if StartsOne(InOrder(root), a) then 1 else 0
    }

    constructor ()
      ensures Valid() && root == Leaf
    {
      root, lockedPages, mappings := Leaf, 0, multiset{};
    }

    /** afu_dma_region_add. */
    method Add(r: Region) returns (ret: int)
      modifies this`root
      ensures ret == if Insert(old(root), r).Some? then 0 else -EEXIST
      ensures root == if ret == 0 then Insert(old(root), r).value else old(root)
    {
      var path: seq<Turn>, cur := [], root;
      while cur.Node?
        invariant root == old(root) && forall i :: 0 <= i < |path| ==> path[i].node.Node?
        invariant Insert(root, r) == match Insert(cur, r) case None => None case Some(u) => Some(Plug(path, u))
        decreases cur
      {
        if Check(cur.region, r.iova, r.length) {
          return -EEXIST;
        }
        ghost var below := Insert(if r.iova < cur.region.iova then cur.left else cur.right, r);
        if r.iova < cur.region.iova {
          if below.Some? { PlugStep(path, cur, true, below.value); }
          path := path + [Turn(cur, true)];
          cur := cur.left;
        } else if r.iova > cur.region.iova {
          if below.Some? { PlugStep(path, cur, false, below.value); }
          path := path + [Turn(cur, false)];
          cur := cur.right;
        } else {
          return -EEXIST;
        }
      }
      root := Plug(path, NewNode(r));
      ret := 0;
    }

    /** afu_dma_region_find. */
    method Find(iova: nat, size: nat) returns (found: Option<Region>)
      ensures found == Search(root, iova, size)
      ensures Searchable(InOrder(root), size) && iova + size < U64 ==> found == Scan(InOrder(root), iova, size)
      ensures Findable(InOrder(root), size) && iova + size < U64 ==>
        if found.Some? then found.value in InOrder(root) && Covers(found.value, iova, size)
        else !Covered(InOrder(root), iova, size)
    {
      if Findable(InOrder(root), size) && iova + size < U64 { SearchFinds(root, iova, size); }
      if Searchable(InOrder(root), size) && iova + size < U64 { SearchIsScan(root, iova, size); }
      var node := root;
      while node.Node?
        invariant Search(node, iova, size) == Search(root, iova, size)
        decreases node
      {
        if Check(node.region, iova, size) {
          return Some(node.region);
        }
        if iova < node.region.iova {
          node := node.left;
        } else if iova > node.region.iova {
          node := node.right;
        } else {
          break;
        }
      }
      found := None;
    }

    /** afu_dma_map_region. `pinRet` is the outcome of pinning and `answer` that of mapping. A mapping may
        overlap stored regions in any way; they stay disjoint exactly when it overlaps none. */
    method MapRegion(userAddr: nat, length: nat, memory: bool, pinRet: int, contiguous: bool, answer: Option<nat>)
      returns (ret: int)
      requires Valid() && userAddr < U64 && length < U64 && pinRet <= 0
      requires answer.Some? ==> answer.value + length < U64
      modifies this
      ensures Valid()
      ensures ret == 0 ==> length > 0 && answer.Some? && forall x :: x in InOrder(root) <==>
        x == Region(answer.value, length, false) || x in old(InOrder(root))
      ensures ret == 0 ==> var r := Region(answer.value, length, false);
        (Ordered(InOrder(root)) <==>
          old(Ordered(InOrder(root))) && forall x :: x in old(InOrder(root)) ==> Disjoint(x, r)) &&
        (EndsAscend(InOrder(root)) <==>
          old(EndsAscend(InOrder(root))) &&
          forall x :: x in old(InOrder(root)) && r.iova < x.iova ==> End(r) <= End(x))
      ensures ret != 0 ==> root == old(root) && lockedPages == old(lockedPages) && mappings == old(mappings)
      ensures !Mappable(userAddr, length) ==> ret == -EINVAL
      ensures Mappable(userAddr, length) && !memory ==> ret == -ENOMEM
      ensures Mappable(userAddr, length) && memory && pinRet != 0 ==> ret == pinRet
      ensures Mappable(userAddr, length) && memory && pinRet == 0 && !contiguous ==> ret == -EINVAL
      ensures Mappable(userAddr, length) && memory && pinRet == 0 && contiguous && answer.None? ==> ret == -EFAULT
      ensures Mappable(userAddr, length) && memory && pinRet == 0 && contiguous && answer.Some? ==>
        var blocked := old(BlockedIn(InOrder(root), Region(answer.value, length, false)));
        (ret == 0 || ret == -EEXIST) && (!blocked ==> ret == 0) &&
        (old(StartsOne(InOrder(root), answer.value)) || (blocked && old(EndsAscend(InOrder(root)))) ==> ret == -EEXIST)
    {
      hide Ordered; hide Ascending; hide EndsAscend; hide Pages; hide Insert; hide InOrder; hide Covers; hide Disjoint;
      if userAddr % PAGE_SIZE != 0 || length % PAGE_SIZE != 0 || length == 0 {
        return -EINVAL;
      }
      if (userAddr + length) % U64 < userAddr {
        return -EINVAL;
      }
      if !memory {
        return -ENOMEM;
      }
      if pinRet != 0 {
        return pinRet;
      }
      lockedPages := lockedPages + length / PAGE_SIZE;
      if !contiguous {
        lockedPages := lockedPages - length / PAGE_SIZE;
        return -EINVAL;
      }
      if answer.None? {
        lockedPages := lockedPages - length / PAGE_SIZE;
        return -EFAULT;
      }
      var r := Region(answer.value, length, false);
      mappings := mappings + multiset{r.iova};
      RefusedForCause(root, r);
      if EndsAscend(InOrder(root)) { RefusedExactly(root, r); }
      ret := Add(r);
      if ret != 0 {
        mappings := mappings - multiset{r.iova};
        lockedPages := lockedPages - length / PAGE_SIZE;
        return;
      }
      AddedKeepsOrder(old(root), r);
      AddedKeepsEnds(old(root), r);
      AddedPages(old(root), r);
    }

    /** afu_dma_unmap_region. */
    method UnmapRegion(iova: nat) returns (ret: int)
      requires Valid() && iova < U64
      modifies this
      ensures Valid()
      ensures ret == 0 <==> exists x :: x in old(InOrder(root)) && x.iova == iova && !x.inUse
      ensures ret == 0 ==> forall x :: x in InOrder(root) <==> x in old(InOrder(root)) && x.iova != iova
      ensures ret != 0 ==> ret == (if old(StartsOne(InOrder(root), iova)) then -EBUSY else -EINVAL)
      ensures ret != 0 ==> root == old(root) && lockedPages == old(lockedPages) && mappings == old(mappings)
    {
      hide Ordered; hide Ascending; hide Pages; hide InOrder; hide Erase;
      var region := Find(iova, 0);
      if region.None? {
        return -EINVAL;
      }
      StartsAlone(InOrder(root), region.value);
      if region.value.inUse {
        return -EBUSY;
      }
      RemovedKeepsOrder(root, region.value);
      root := Erase(root, region.value);
      mappings := mappings - multiset{iova};
      lockedPages := lockedPages - region.value.length / PAGE_SIZE;
      ret := 0;
    }
  }

  /** A user area that can be mapped at all: whole pages, not empty, and not past the end of the address space. */
  predicate Mappable(userAddr: nat, length: nat) {
    userAddr % PAGE_SIZE == 0 && length % PAGE_SIZE == 0 && length > 0 && userAddr + length < U64
  }

  /** A stored region covers this one or starts where it starts. */
  ghost predicate BlockedIn(s: seq<Region>, r: Region) {
    exists x :: x in s && Blocks(x, r)
  }

  predicate StartsOne(s: seq<Region>, a: nat) {
    exists x :: x in s && x.iova == a
  }

  lemma StartsAlone(s: seq<Region>, x: Region)
    requires Ascending(s) && x in s
    ensures forall y :: y in s && y.iova == x.iova ==> y == x
  {
    forall y | y in s && y.iova == x.iova
      ensures y == x
    {
      OneStart(s, x, y);
    }
  }
}
