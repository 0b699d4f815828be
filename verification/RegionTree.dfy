/**
 The tree of DMA regions of driverso/fpga/dfl-afu-dma-region.c, as values: the search, the
 insertion and the removal, related to the regions in address order.
 */
module RegionTree {
  import opened Common

  type Address = a: nat | a < U64

  datatype Region = Region(userAddr: Address, length: Address, iova: Address, inUse: bool)

  datatype Tree = Leaf | Node(left: Tree, region: Region, right: Tree)

  /** The regions from left to right. */
  function InOrder(t: Tree): seq<Region> {
    match t
    case Leaf => []
    case Node(l, r, u) => InOrder(l) + [r] + InOrder(u)
  }

  /** dma_region_check_iova, with its sums wrapping at 64 bits. */
  predicate Covers(r: Region, iova: Address, size: Address) {
    if size == 0 && r.iova != iova then false
    else r.iova <= iova && (r.length + r.iova) % U64 >= (iova + size) % U64
  }

  predicate Sorted(s: seq<Region>) {
    forall i, j :: 0 <= i < j < |s| ==> s[i].iova < s[j].iova
  }

  lemma SortedParts(a: seq<Region>, r: Region, b: seq<Region>)
    requires Sorted(a + [r] + b)
    ensures Sorted(a) && Sorted(b)
    ensures forall x :: x in a ==> x.iova < r.iova
    ensures forall x :: x in b ==> r.iova < x.iova
  {
    var s := a + [r] + b;
    assert forall i :: 0 <= i < |a| ==> s[i] == a[i];
    assert forall i :: 0 <= i < |b| ==> s[|a| + 1 + i] == b[i];
    assert s[|a|] == r;
  }

  /** The search of afu_dma_region_find, from the root down. */
  function Search(t: Tree, iova: Address, size: Address): Option<Region> {
    match t
    case Leaf => None
    case Node(l, r, u) =>
      if Covers(r, iova, size) then Some(r)
      else if iova < r.iova then Search(l, iova, size)
      else if iova > r.iova then Search(u, iova, size)
      else None
  }

  /** afu_dma_region_find. */
  method RegionFind(t: Tree, iova: Address, size: Address) returns (found: Option<Region>)
    ensures found == Search(t, iova, size)
  {
    var node := t;
    while node.Node?
      invariant Search(node, iova, size) == Search(t, iova, size)
      decreases node
    {
      if Covers(node.region, iova, size) {
        return Some(node.region);
      }
      if iova < node.region.iova {
        node := node.left;
      } else if iova > node.region.iova {
        node := node.right;
      } else {
        break;
      }
    }
    return None;
  }

  predicate SomeCovers(s: seq<Region>, iova: Address, size: Address) {
    exists r :: r in s && Covers(r, iova, size)
  }

  /** What the search finds is in the tree and covers the area. */
  lemma {:induction false} SearchSound(t: Tree, iova: Address, size: Address)
    ensures Search(t, iova, size).Some? ==>
              Search(t, iova, size).value in InOrder(t) && Covers(Search(t, iova, size).value, iova, size)
  {
    if t.Node? {
      SearchSound(t.left, iova, size);
      SearchSound(t.right, iova, size);
    }
  }

  /** The region at `k` is the last one that starts at or before `iova`. */
  predicate LastBefore(s: seq<Region>, k: nat, iova: Address) {
    k < |s| && s[k].iova <= iova && (k + 1 < |s| ==> iova < s[k + 1].iova)
  }

  /** The search succeeds, in every shape of the tree, where the last region before `iova` covers the area. */
  lemma {:induction false} SearchComplete(t: Tree, iova: Address, size: Address, k: nat)
    requires Sorted(InOrder(t)) && LastBefore(InOrder(t), k, iova) && Covers(InOrder(t)[k], iova, size)
    ensures Search(t, iova, size).Some?
  {
    var (l, r, u) := (InOrder(t.left), t.region, InOrder(t.right));
    SortedParts(l, r, u);
    var s := l + [r] + u;
    if !Covers(r, iova, size) {
      if k < |l| {
        assert s[k] == l[k] && s[|l|] == r;
        SearchComplete(t.left, iova, size, k);
      } else {
        assert k != |l|;
        assert s[k] == u[k - |l| - 1];
        SearchComplete(t.right, iova, size, k - |l| - 1);
      }
    }
  }

  lemma {:induction false} SearchAbove(t: Tree, iova: Address, size: Address)
    requires forall r :: r in InOrder(t) ==> iova < r.iova
    ensures Search(t, iova, size).None?
  {
    if t.Node? {
      assert t.region in InOrder(t);
      assert forall r :: r in InOrder(t.left) ==> r in InOrder(t);
      SearchAbove(t.left, iova, size);
    }
  }

  /** One shape of a tree with given regions: a chain to the right. */
  function Chain(s: seq<Region>): (t: Tree)
    ensures InOrder(t) == s
  {
    if s == [] then Leaf
    else assert s == [] + [s[0]] + s[1..]; Node(Leaf, s[0], Chain(s[1..]))
  }

  /** With the last region before `iova` at the root, nothing else is looked at that could cover it. */
  lemma SearchMisses(s: seq<Region>, iova: Address, size: Address, k: nat) returns (t: Tree)
    requires Sorted(s) && LastBefore(s, k, iova) && !Covers(s[k], iova, size)
    ensures InOrder(t) == s && Search(t, iova, size).None?
  {
    var (l, r, u) := (Chain(s[..k]), s[k], Chain(s[k + 1..]));
    t := Node(l, r, u);
    assert s[..k] + [s[k]] + s[k + 1..] == s;
    AllAbove(s, iova, k + 1);
    SearchAbove(u, iova, size);
  }

  lemma AllAbove(s: seq<Region>, iova: Address, n: nat)
    requires Sorted(s) && n <= |s| && (n < |s| ==> iova < s[n].iova)
    ensures forall r :: r in s[n..] ==> iova < r.iova
  {
    forall r | r in s[n..]
      ensures iova < r.iova
    {
      var i :| 0 <= i < |s[n..]| && s[n..][i] == r;
      assert s[n + i] == r;
    }
  }

  /** In every shape of the tree the search finds a region where one covers the area. */
  ghost predicate NeverMisses(s: seq<Region>, iova: Address, size: Address) {
    forall t :: InOrder(t) == s ==> (Search(t, iova, size).Some? <==> SomeCovers(s, iova, size))
  }

  /** The last region before `iova` covers the area, if any region does. */
  predicate LastDecides(s: seq<Region>, iova: Address, size: Address) {
    SomeCovers(s, iova, size) ==> exists k :: 0 <= k < |s| && LastBefore(s, k, iova) && Covers(s[k], iova, size)
  }

  /** The exact condition for the search, for every set of regions and every area. */
  lemma SearchExactly(s: seq<Region>, iova: Address, size: Address)
    requires Sorted(s)
    ensures NeverMisses(s, iova, size) <==> LastDecides(s, iova, size)
  {
    if LastDecides(s, iova, size) {
      forall t | InOrder(t) == s
        ensures Search(t, iova, size).Some? <==> SomeCovers(s, iova, size)
      {
        SearchSound(t, iova, size);
        if SomeCovers(s, iova, size) {
          var k :| 0 <= k < |s| && LastBefore(s, k, iova) && Covers(s[k], iova, size);
          SearchComplete(t, iova, size, k);
        }
      }
    } else {
      var k := LastStart(s, iova, size);
      var t := SearchMisses(s, iova, size, k);
    }
  }

  /** Where some region covers the area, there is a last region before it. */
  lemma LastStart(s: seq<Region>, iova: Address, size: Address) returns (k: nat)
    requires SomeCovers(s, iova, size)
    ensures LastBefore(s, k, iova)
  {
    var r :| r in s && Covers(r, iova, size);
    k := |s| - 1;
    while s[k].iova > iova
      invariant k < |s| && (k + 1 < |s| ==> iova < s[k + 1].iova)
      invariant exists i :: 0 <= i <= k && s[i] == r
      decreases k
    {
      k := k - 1;
    }
  }

  /** Regions that start at different places, do not overlap and lie in the address space. */
  predicate Apart(s: seq<Region>) {
    && (forall i :: 0 <= i < |s| ==> s[i].length > 0 && s[i].iova + s[i].length <= U64)
    && (forall i, j :: 0 <= i < j < |s| ==> s[i].iova + s[i].length <= s[j].iova)
  }

  /** The end of a region as the code computes it. */
  function WrappedEnd(r: Region): nat {
    (r.iova + r.length) % U64
  }

  /** The region ends below the top of the address space, so that its end does not wrap to zero. */
  predicate BelowTop(r: Region) {
    r.iova + r.length < U64
  }

  /** An area does not wrap beyond zero, or no region that reaches the top starts before it. */
  predicate Decided(s: seq<Region>, iova: Address, size: Address) {
    iova + size <= U64 || forall i :: 0 <= i < |s| && s[i].iova <= iova ==> BelowTop(s[i])
  }

  lemma ApartSorted(s: seq<Region>)
    requires Apart(s)
    ensures Sorted(s)
  {
  }

  /** Among separate regions, the one that covers an area is the last one before it. */
  lemma ApartDecides(s: seq<Region>, iova: Address, size: Address, k: nat)
    requires Apart(s) && iova + size < U64 && k < |s| && Covers(s[k], iova, size)
    ensures LastBefore(s, k, iova)
    ensures forall j :: 0 <= j < |s| && Covers(s[j], iova, size) ==> j == k
  {
    assert s[k].iova <= iova < s[k].iova + s[k].length;
  }

  lemma CoversNext(x: Region, y: Region, iova: Address, size: Address)
    requires Covers(x, iova, size) && x.length > 0 && x.iova + x.length <= y.iova <= iova
    requires y.length > 0 && y.iova + y.length <= U64 && (iova + size <= U64 || BelowTop(y))
    ensures Covers(y, iova, size)
  {
    assert WrappedEnd(x) == x.iova + x.length;
    if iova + size >= U64 {
      assert (iova + size) % U64 == iova + size - U64;
    }
  }

  /** Also for an area that wraps: if a separate region covers it, the last one before it does. */
  lemma {:induction false} ApartLast(s: seq<Region>, iova: Address, size: Address, k: nat) returns (j: nat)
    requires Apart(s) && Decided(s, iova, size) && k < |s| && Covers(s[k], iova, size)
    ensures LastBefore(s, j, iova) && Covers(s[j], iova, size)
    decreases |s| - k
  {
    j := k;
    if k + 1 < |s| && s[k + 1].iova <= iova {
      CoversNext(s[k], s[k + 1], iova, size);
      j := ApartLast(s, iova, size, k + 1);
    }
  }

  /** The reference: look at every region. */
  function Scan(s: seq<Region>, iova: Address, size: Address): Option<Region> {
    if s == [] then None else if Covers(s[0], iova, size) then Some(s[0]) else Scan(s[1..], iova, size)
  }

  lemma {:induction false} ScanFinds(s: seq<Region>, iova: Address, size: Address)
    ensures Scan(s, iova, size).Some? <==> SomeCovers(s, iova, size)
    ensures Scan(s, iova, size).Some? ==>
              Scan(s, iova, size).value in s && Covers(Scan(s, iova, size).value, iova, size)
  {
    if s != [] {
      ScanFinds(s[1..], iova, size);
      assert s == [s[0]] + s[1..];
    }
  }

  /**
   On separate regions the search returns what the linear scan does, whatever the shape of the tree, if the area does
   not reach the top of the address space. For other areas it finds something where the scan does, except where one
   wraps beyond zero and a region that reaches the top starts before it.
   */
  lemma SearchIsScan(t: Tree, iova: Address, size: Address)
    requires Apart(InOrder(t))
    ensures Decided(InOrder(t), iova, size) ==>
              (Search(t, iova, size).Some? <==> Scan(InOrder(t), iova, size).Some?)
    ensures iova + size < U64 ==> Search(t, iova, size) == Scan(InOrder(t), iova, size)
  {
    var s := InOrder(t);
    SearchSound(t, iova, size);
    ScanFinds(s, iova, size);
    if SomeCovers(s, iova, size) && Decided(s, iova, size) {
      var k :| 0 <= k < |s| && s[k] == Scan(s, iova, size).value;
      ApartSorted(s);
      var last := ApartLast(s, iova, size, k);
      SearchComplete(t, iova, size, last);
      if iova + size < U64 {
        ApartDecides(s, iova, size, k);
        var j :| 0 <= j < |s| && s[j] == Search(t, iova, size).value;
      }
    }
  }

  /** The area lies in the region; an empty one lies only at its start. */
  predicate Contains(r: Region, iova: Address, size: Address) {
    r.iova <= iova && iova + size <= r.iova + r.length && (size == 0 ==> iova == r.iova)
  }

  /** So the search finds the region that contains an area below the top, if that region ends below the top as well. */
  lemma FindsContaining(t: Tree, iova: Address, size: Address)
    requires Apart(InOrder(t)) && iova + size < U64
    ensures Search(t, iova, size).Some? <==> exists r :: r in InOrder(t) && Contains(r, iova, size) && BelowTop(r)
    ensures Search(t, iova, size).Some? ==> Contains(Search(t, iova, size).value, iova, size)
  {
    var s := InOrder(t);
    SearchSound(t, iova, size);
    if Search(t, iova, size).Some? {
      var r := Search(t, iova, size).value;
      var k :| 0 <= k < |s| && s[k] == r;
      CoversMeans(r, iova, size);
    }
    if r :| r in s && Contains(r, iova, size) && BelowTop(r) {
      var k :| 0 <= k < |s| && s[k] == r;
      CoversMeans(r, iova, size);
      ApartSorted(s);
      ApartDecides(s, iova, size, k);
      SearchComplete(t, iova, size, k);
    }
  }

  /**
   An area that reaches the top is in no other region than one that does, and still the search succeeds if the last
   region before it ends, with its own end wrapped, at or behind the end of the area.
   */
  lemma FindsAtTop(t: Tree, iova: Address, size: Address)
    requires Apart(InOrder(t)) && iova + size >= U64
    ensures forall k :: 0 <= k < |InOrder(t)| && Contains(InOrder(t)[k], iova, size) ==>
              iova + size == U64 && !BelowTop(InOrder(t)[k])
    ensures Decided(InOrder(t), iova, size) ==>
              (Search(t, iova, size).Some? <==>
                 exists k :: 0 <= k < |InOrder(t)| && LastBefore(InOrder(t), k, iova) &&
                             WrappedEnd(InOrder(t)[k]) >= iova + size - U64)
  {
    var s := InOrder(t);
    SearchSound(t, iova, size);
    ApartSorted(s);
    if Decided(s, iova, size) && Search(t, iova, size).Some? {
      var k :| 0 <= k < |s| && s[k] == Search(t, iova, size).value;
      var j := ApartLast(s, iova, size, k);
      CoversMeans(s[j], iova, size);
    }
    if k :| 0 <= k < |s| && LastBefore(s, k, iova) && WrappedEnd(s[k]) >= iova + size - U64 {
      CoversMeans(s[k], iova, size);
      SearchComplete(t, iova, size, k);
    }
  }

  lemma CoversMeans(r: Region, iova: Address, size: Address)
    requires r.iova + r.length <= U64
    ensures iova + size < U64 ==> (Covers(r, iova, size) <==> Contains(r, iova, size) && BelowTop(r))
    ensures iova + size >= U64 ==>
              (Covers(r, iova, size) <==> r.iova <= iova && WrappedEnd(r) >= iova + size - U64)
  {
  }

  /** A region [0x5000, 0x6000) is found for an area that starts behind it and wraps around the address space. */
  lemma WrappedFound(r: Region)
    requires r.iova == 0x5000 && r.length == 0x1000
    ensures Search(Node(Leaf, r, Leaf), 0x6000, 0xFFFF_FFFF_FFFF_F000) == Some(r)
    ensures !Contains(r, 0x6000, 0xFFFF_FFFF_FFFF_F000)
  {
  }

  /** A region that reaches the top is not found for its own first page. */
  lemma TopMissed(r: Region)
    requires r.iova == 0xFFFF_FFFF_FFFF_E000 && r.length == 0x2000
    ensures Contains(r, 0xFFFF_FFFF_FFFF_E000, 0x1000)
    ensures Search(Node(Leaf, r, Leaf), 0xFFFF_FFFF_FFFF_E000, 0x1000).None?
  {
  }

  /** And one is refused next to any other, though they are apart. */
  lemma TopRefused(r: Region, top: Region)
    requires r.iova == 0x5000 && r.length == 0x1000 && top.iova == 0xFFFF_FFFF_FFFF_F000 && top.length == 0x1000
    ensures Separate(r, top) && Inserted(Node(Leaf, r, Leaf), top).None?
  {
  }

  /** Two regions that overlap: one in the middle, then one around it. An area that the second covers is not found. */
  lemma OverlapMissed(userAddr: Address)
    ensures var (inner, outer) := (Region(userAddr, 0x1000, 0x5000, false), Region(userAddr, 0xA000, 0, false));
            var one := Inserted(Leaf, inner);
            var two := Inserted(one.value, outer);
            two.Some? && SomeCovers(InOrder(two.value), 0x7000, 0x1000) && Search(two.value, 0x7000, 0x1000).None?
  {
    var (inner, outer) := (Region(userAddr, 0x1000, 0x5000, false), Region(userAddr, 0xA000, 0, false));
    var two := Node(Node(Leaf, outer, Leaf), inner, Leaf);
    assert Inserted(Node(Leaf, inner, Leaf), outer) == Some(two);
    assert outer in InOrder(two) && Covers(outer, 0x7000, 0x1000);
  }

  /** By start address the search needs no separation: only order, and a region that does not reach the top. */
  lemma SearchStart(t: Tree, iova: Address, k: nat)
    requires Sorted(InOrder(t)) && k < |InOrder(t)| && InOrder(t)[k].iova == iova
    ensures Search(t, iova, 0) == if InOrder(t)[k].length + iova < U64 then Some(InOrder(t)[k]) else None
  {
    var s := InOrder(t);
    SearchSound(t, iova, 0);
    assert LastBefore(s, k, iova);
    StartCovers(s[k]);
    if s[k].length + iova < U64 {
      SearchComplete(t, iova, 0, k);
    }
    assert forall r :: r in s && r.iova == iova ==> r == s[k];
  }

  lemma StartCovers(r: Region)
    ensures Covers(r, r.iova, 0) <==> r.length + r.iova < U64
  {
  }

  /** afu_dma_region_add before rebalancing: a new leaf, or nothing where the way down meets an old region. */
  function Inserted(t: Tree, r: Region): Option<Tree> {
    match t
    case Leaf => Some(Node(Leaf, r, Leaf))
    case Node(l, x, u) =>
      if Covers(x, r.iova, r.length) then None
      else if r.iova < x.iova then (
        match Inserted(l, r)
        case None => None
        case Some(m) => Some(Node(m, x, u)))
      else if r.iova > x.iova then (
        match Inserted(u, r)
        case None => None
        case Some(m) => Some(Node(l, x, m)))
      else None
  }

  /** The place of an address between the regions. */
  predicate Between(s: seq<Region>, k: nat, iova: Address) {
    k <= |s| && (forall i :: 0 <= i < k ==> s[i].iova < iova) && (forall i :: k <= i < |s| ==> iova < s[i].iova)
  }

  /** A new region goes to its place in the order. */
  lemma {:induction false} InsertedOrder(t: Tree, r: Region) returns (k: nat)
    requires Sorted(InOrder(t)) && Inserted(t, r).Some?
    ensures Between(InOrder(t), k, r.iova)
    ensures InOrder(Inserted(t, r).value) == InOrder(t)[..k] + [r] + InOrder(t)[k..]
  {
    if t.Leaf? {
      k := 0;
    } else {
      var (l, x, u) := (InOrder(t.left), t.region, InOrder(t.right));
      SortedParts(l, x, u);
      if r.iova < x.iova {
        k := InsertedOrder(t.left, r);
        PlaceLeft(l, x, u, k, r);
      } else {
        var i := InsertedOrder(t.right, r);
        k := |l| + 1 + i;
        PlaceRight(l, x, u, i, r);
      }
    }
  }

  lemma PlaceLeft(l: seq<Region>, x: Region, u: seq<Region>, k: nat, r: Region)
    requires Between(l, k, r.iova) && r.iova < x.iova && forall y :: y in u ==> x.iova < y.iova
    ensures Between(l + [x] + u, k, r.iova)
    ensures (l[..k] + [r] + l[k..]) + [x] + u == (l + [x] + u)[..k] + [r] + (l + [x] + u)[k..]
  {
    var s := l + [x] + u;
    assert s[..k] == l[..k] && s[k..] == l[k..] + [x] + u;
    assert forall i :: |l| < i < |s| ==> s[i] in u;
  }

  lemma PlaceRight(l: seq<Region>, x: Region, u: seq<Region>, i: nat, r: Region)
    requires Between(u, i, r.iova) && x.iova < r.iova && forall y :: y in l ==> y.iova < x.iova
    ensures Between(l + [x] + u, |l| + 1 + i, r.iova)
    ensures l + [x] + (u[..i] + [r] + u[i..]) == (l + [x] + u)[..|l| + 1 + i] + [r] + (l + [x] + u)[|l| + 1 + i..]
  {
    var s := l + [x] + u;
    assert s[..|l| + 1 + i] == l + [x] + u[..i] && s[|l| + 1 + i..] == u[i..];
    assert forall j :: 0 <= j < |l| ==> s[j] in l;
  }

  /** Does an old region stand in the way of a new one? */
  predicate Meets(s: seq<Region>, r: Region) {
    exists x :: x in s && (Covers(x, r.iova, r.length) || x.iova == r.iova)
  }

  /** A refused region is inside an old one or starts where an old one starts. */
  lemma {:induction false} InsertedRefused(t: Tree, r: Region)
    requires Inserted(t, r).None?
    ensures Meets(InOrder(t), r)
  {
    var x := t.region;
    assert x in InOrder(t);
    if Covers(x, r.iova, r.length) {
    } else if r.iova < x.iova {
      InsertedRefused(t.left, r);
      assert forall y :: y in InOrder(t.left) ==> y in InOrder(t);
    } else if r.iova > x.iova {
      InsertedRefused(t.right, r);
      assert forall y :: y in InOrder(t.right) ==> y in InOrder(t);
    }
  }

  /** In every shape, the last region before the new one decides. */
  lemma {:induction false} InsertedBlocked(t: Tree, r: Region, k: nat)
    requires Sorted(InOrder(t)) && LastBefore(InOrder(t), k, r.iova)
    requires Covers(InOrder(t)[k], r.iova, r.length) || InOrder(t)[k].iova == r.iova
    ensures Inserted(t, r).None?
  {
    var (l, x, u) := (InOrder(t.left), t.region, InOrder(t.right));
    SortedParts(l, x, u);
    var s := l + [x] + u;
    if !Covers(x, r.iova, r.length) && x.iova != r.iova {
      if k < |l| {
        assert s[k] == l[k] && s[|l|] == x;
        InsertedBlocked(t.left, r, k);
      } else {
        assert k != |l|;
        assert s[k] == u[k - |l| - 1];
        InsertedBlocked(t.right, r, k - |l| - 1);
      }
    }
  }

  /** On separate regions, a region is refused exactly when an old one stands in its way. */
  lemma InsertedExactly(t: Tree, r: Region)
    requires Apart(InOrder(t))
    ensures Inserted(t, r).None? ==> Meets(InOrder(t), r)
    ensures Decided(InOrder(t), r.iova, r.length) ==> (Inserted(t, r).None? <==> Meets(InOrder(t), r))
  {
    var s := InOrder(t);
    ApartSorted(s);
    if Inserted(t, r).None? {
      InsertedRefused(t, r);
    } else if Meets(s, r) && Decided(s, r.iova, r.length) {
      var k :| 0 <= k < |s| && (Covers(s[k], r.iova, r.length) || s[k].iova == r.iova);
      if Covers(s[k], r.iova, r.length) {
        k := ApartLast(s, r.iova, r.length, k);
      }
      InsertedBlocked(t, r, k);
    }
  }

  predicate Separate(x: Region, y: Region) {
    x.iova + x.length <= y.iova || y.iova + y.length <= x.iova
  }

  lemma SeparateDoNotMeet(x: Region, r: Region)
    requires x.length > 0 && x.iova + x.length <= U64 && r.length > 0 && BelowTop(r) && Separate(x, r)
    ensures !Covers(x, r.iova, r.length) && x.iova != r.iova
  {
  }

  lemma NoneMeets(s: seq<Region>, r: Region)
    requires Apart(s) && r.length > 0 && r.iova + r.length <= U64
    requires forall x :: x in s ==> Separate(x, r)
    ensures Meets(s, r) <==> s != [] && r.iova + r.length == U64
  {
    if r.iova + r.length < U64 {
      forall x | x in s
        ensures !Covers(x, r.iova, r.length) && x.iova != r.iova
      {
        SeparateDoNotMeet(x, r);
      }
    } else if s != [] {
      assert s[0] in s && Covers(s[0], r.iova, r.length);
    }
  }

  /**
   Regions that a correct DMA layer hands out are accepted and stay separate. Only one that reaches the top of the
   address space is refused, if there is any other: its end wraps to zero.
   */
  lemma InsertedApart(t: Tree, r: Region)
    requires Apart(InOrder(t)) && r.length > 0 && r.iova + r.length <= U64
    requires forall x :: x in InOrder(t) ==> Separate(x, r)
    ensures Inserted(t, r).Some? <==> BelowTop(r) || InOrder(t) == []
    ensures Inserted(t, r).Some? ==> Apart(InOrder(Inserted(t, r).value))
  {
    var s := InOrder(t);
    ApartSorted(s);
    NoneMeets(s, r);
    InsertedExactly(t, r);
    if Inserted(t, r).Some? {
      var k := InsertedOrder(t, r);
      ApartInsert(s, r, k);
    }
  }

  lemma ApartInsert(s: seq<Region>, r: Region, k: nat)
    requires Apart(s) && r.length > 0 && r.iova + r.length <= U64 && Between(s, k, r.iova)
    requires forall x :: x in s ==> Separate(x, r)
    ensures Apart(s[..k] + [r] + s[k..])
  {
    var n := s[..k] + [r] + s[k..];
    forall i, j | 0 <= i < j < |n|
      ensures n[i].iova + n[i].length <= n[j].iova
    {
      var (a, b) := (if i <= k then i else i - 1, if j <= k then j else j - 1);
      if i == k {
        assert n[j] == s[b] && s[b] in s;
      } else if j == k {
        assert n[i] == s[a] && s[a] in s;
      } else {
        assert n[i] == s[a] && n[j] == s[b];
      }
    }
  }

  /** The first region of a tree, and the tree without it. */
  function First(t: Tree): (r: Region)
    requires t.Node?
    ensures InOrder(t)[0] == r
  {
    if t.left.Leaf? then t.region else First(t.left)
  }

  function DropFirst(t: Tree): (d: Tree)
    requires t.Node?
    ensures InOrder(d) == InOrder(t)[1..]
  {
    if t.left.Leaf? then assert InOrder(t) == [t.region] + InOrder(t.right); t.right
    else
      assert InOrder(t)[1..] == InOrder(t.left)[1..] + [t.region] + InOrder(t.right);
      Node(DropFirst(t.left), t.region, t.right)
  }

  /** What takes the place of an erased node: with two children, its successor moves up. */
  function Join(l: Tree, u: Tree): (t: Tree)
    ensures InOrder(t) == InOrder(l) + InOrder(u)
  {
    if u.Leaf? then l
    else assert InOrder(u) == [First(u)] + InOrder(DropFirst(u)); Node(l, First(u), DropFirst(u))
  }

  /** rb_erase before rebalancing. */
  function Erased(t: Tree, iova: Address): Tree {
    match t
    case Leaf => Leaf
    case Node(l, x, u) =>
      if iova < x.iova then Node(Erased(l, iova), x, u)
      else if iova > x.iova then Node(l, x, Erased(u, iova))
      else Join(l, u)
  }

  /** The regions without the one at `k`. */
  function Without(s: seq<Region>, k: nat): seq<Region>
    requires k < |s|
  {
    s[..k] + s[k + 1..]
  }

  lemma WithoutLeft(l: seq<Region>, x: Region, u: seq<Region>, k: nat)
    requires k < |l|
    ensures (l + [x] + u)[k] == l[k] && Without(l + [x] + u, k) == Without(l, k) + [x] + u
  {
  }

  lemma WithoutRight(l: seq<Region>, x: Region, u: seq<Region>, i: nat)
    requires i < |u|
    ensures (l + [x] + u)[|l| + 1 + i] == u[i] && Without(l + [x] + u, |l| + 1 + i) == l + [x] + Without(u, i)
  {
  }

  lemma WithoutMiddle(l: seq<Region>, x: Region, u: seq<Region>)
    ensures (l + [x] + u)[|l|] == x && Without(l + [x] + u, |l|) == l + u
  {
  }

  /** Removing a region leaves the others in order. */
  lemma {:induction false} ErasedOrder(t: Tree, k: nat)
    requires Sorted(InOrder(t)) && k < |InOrder(t)|
    ensures InOrder(Erased(t, InOrder(t)[k].iova)) == Without(InOrder(t), k)
  {
    var (l, x, u) := (InOrder(t.left), t.region, InOrder(t.right));
    SortedParts(l, x, u);
    if k < |l| {
      WithoutLeft(l, x, u, k);
      ErasedOrder(t.left, k);
    } else if k == |l| {
      WithoutMiddle(l, x, u);
    } else {
      WithoutRight(l, x, u, k - |l| - 1);
      ErasedOrder(t.right, k - |l| - 1);
    }
  }

  /** A tree after adding regions one by one, each time brought into some shape. */
  ghost function Built(rs: seq<Region>, shape: nat -> Tree -> Tree): Tree {
    if rs == [] then Leaf else
      var before := Built(rs[..|rs| - 1], shape);
      match Inserted(before, rs[|rs| - 1])
      case None => before
      case Some(t) => shape(|rs|)(t)
  }

  ghost predicate OrderKept(shape: nat -> Tree -> Tree) {
    forall n, t :: InOrder(shape(n)(t)) == InOrder(t)
  }

  /** Regions as a DMA layer hands them out: none empty, none overlapping another. */
  predicate AllSeparate(rs: seq<Region>) {
    && (forall i :: 0 <= i < |rs| ==> rs[i].length > 0 && rs[i].iova + rs[i].length <= U64)
    && (forall i, j :: 0 <= i < j < |rs| ==> Separate(rs[i], rs[j]))
  }

  /** Those that are accepted: a region that reaches the top only if it is the first. */
  ghost predicate Kept(rs: seq<Region>, r: Region) {
    r in rs && (BelowTop(r) || r == rs[0])
  }

  /** Exactly those are in the tree, in order, whatever the shapes were. */
  lemma {:induction false} BuiltApart(rs: seq<Region>, shape: nat -> Tree -> Tree)
    requires AllSeparate(rs) && OrderKept(shape)
    ensures Apart(InOrder(Built(rs, shape)))
    ensures forall r :: r in InOrder(Built(rs, shape)) <==> Kept(rs, r)
  {
    if rs != [] {
      var (front, r) := (rs[..|rs| - 1], rs[|rs| - 1]);
      BuiltApart(front, shape);
      var t := Built(front, shape);
      assert forall x :: x in front ==> Separate(x, r);
      InsertedApart(t, r);
      KeptMore(front, r);
      assert front != [] ==> Kept(front, front[0]);
      if Inserted(t, r).Some? {
        ApartSorted(InOrder(t));
        var k := InsertedOrder(t, r);
        Inserts(InOrder(t), k, r);
      }
      assert rs == front + [r];
    }
  }

  lemma KeptMore(front: seq<Region>, r: Region)
    requires AllSeparate(front + [r])
    ensures forall x :: Kept(front + [r], x) <==> Kept(front, x) || (x == r && (BelowTop(r) || front == []))
  {
    var rs := front + [r];
    if front != [] {
      assert rs[0] == front[0] && Separate(rs[0], rs[|front|]);
    }
  }

  lemma Inserts(s: seq<Region>, k: nat, r: Region)
    requires k <= |s|
    ensures forall x :: x in s[..k] + [r] + s[k..] <==> x in s || x == r
  {
    assert s == s[..k] + s[k..];
  }

  /** A region that was refused covers no area that one of the others does not. */
  lemma KeptCovers(rs: seq<Region>, s: seq<Region>, iova: Address, size: Address)
    requires AllSeparate(rs) && forall x :: x in s <==> Kept(rs, x)
    ensures SomeCovers(s, iova, size) <==> SomeCovers(rs, iova, size)
    ensures iova + size <= U64 || rs == [] || BelowTop(rs[0]) || rs[0].iova > iova ==> Decided(s, iova, size)
  {
    if r :| r in rs && Covers(r, iova, size) {
      if !Kept(rs, r) {
        var i :| 0 <= i < |rs| && rs[i] == r;
        assert Separate(rs[0], rs[i]) && Kept(rs, rs[0]);
        assert Covers(rs[0], iova, size);
      } else {
        assert r in s;
      }
    }
    forall i | 0 <= i < |s| ensures Kept(rs, s[i]) {
      assert s[i] in s;
    }
  }

  /** The search in any tree reached this way is the linear scan over the regions added. */
  lemma FindIsScan(rs: seq<Region>, shape: nat -> Tree -> Tree, iova: Address, size: Address)
    requires AllSeparate(rs) && OrderKept(shape)
    ensures iova + size <= U64 || rs == [] || BelowTop(rs[0]) || rs[0].iova > iova ==>
              (Search(Built(rs, shape), iova, size).Some? <==> Scan(rs, iova, size).Some?)
    ensures iova + size < U64 ==> Search(Built(rs, shape), iova, size) == Scan(rs, iova, size)
  {
    var t := Built(rs, shape);
    var s := InOrder(t);
    BuiltApart(rs, shape);
    SearchIsScan(t, iova, size);
    ScanFinds(s, iova, size);
    ScanFinds(rs, iova, size);
    KeptCovers(rs, s, iova, size);
    if SomeCovers(s, iova, size) && iova + size < U64 {
      var (r, x) := (Scan(s, iova, size).value, Scan(rs, iova, size).value);
      CoversMeans(x, iova, size);
      assert Kept(rs, x);
      var k :| 0 <= k < |s| && s[k] == r;
      var j :| 0 <= j < |s| && s[j] == x;
      ApartDecides(s, iova, size, k);
    }
  }
}
