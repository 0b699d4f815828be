/**
 Mapping and unmapping of user memory in driverso/fpga/dfl-afu-dma-region.c: the tree of regions,
 the locked-page account, the pinned pages and the DMA mappings that go with them.
 */
module DmaMapping {
  import opened Common
  import opened RegionTree

  const PAGE_SIZE: nat := 4096

  /** The pages of a region, as afu_dma_unpin_pages counts them. */
  function Pages(length: Address): nat {
    length / PAGE_SIZE
  }

  /** The pages of a region, as afu_dma_pin_pages counts them: in a signed 32-bit variable. */
  function IntPages(length: Address): int {
    var n := Pages(length) % 0x1_0000_0000;
    if n < 0x8000_0000 then n else n - 0x1_0000_0000
  }

  lemma IntPagesExact(length: Address)
    ensures IntPages(length) == Pages(length) <==> Pages(length) < 0x8000_0000
  {
  }

  function TotalPages(s: seq<Region>): nat {
    if s == [] then 0 else Pages(s[0].length) + TotalPages(s[1..])
  }

  function Ranges(s: seq<Region>): seq<(Address, Address)> {
    seq(|s|, i requires 0 <= i < |s| => (s[i].iova, s[i].length))
  }

  lemma {:induction false} PagesAppend(a: seq<Region>, b: seq<Region>)
    ensures TotalPages(a + b) == TotalPages(a) + TotalPages(b)
  {
    if a == [] {
      assert a + b == b;
    } else {
      PagesAppend(a[1..], b);
      assert (a + b)[1..] == a[1..] + b;
    }
  }

  /** One region more adds its pages, wherever it is put. */
  lemma PagesInsert(s: seq<Region>, k: nat, r: Region)
    requires k <= |s|
    ensures TotalPages(s[..k] + [r] + s[k..]) == TotalPages(s) + Pages(r.length)
  {
    var (a, b) := (s[..k], s[k..]);
    assert s == a + b && [r][1..] == [];
    PagesAppend(a, b);
    PagesAppend(a, [r]);
    PagesAppend(a + [r], b);
  }

  lemma RangesInsert(s: seq<Region>, k: nat, r: Region)
    requires k <= |s|
    ensures multiset(Ranges(s[..k] + [r] + s[k..])) == multiset(Ranges(s)) + multiset{(r.iova, r.length)}
  {
    var (a, b) := (Ranges(s[..k]), Ranges(s[k..]));
    assert Ranges(s[..k] + [r] + s[k..]) == a + [(r.iova, r.length)] + b;
    assert Ranges(s) == a + b;
  }

  lemma PutBack(s: seq<Region>, k: nat)
    requires k < |s|
    ensures var w := Without(s, k); w[..k] + [s[k]] + w[k..] == s
  {
    var w := Without(s, k);
    assert w[..k] == s[..k] && w[k..] == s[k + 1..];
  }

  lemma PagesWithout(s: seq<Region>, k: nat)
    requires k < |s|
    ensures TotalPages(s) == TotalPages(Without(s, k)) + Pages(s[k].length)
  {
    PutBack(s, k);
    PagesInsert(Without(s, k), k, s[k]);
  }

  lemma RangesWithout(s: seq<Region>, k: nat)
    requires k < |s|
    ensures multiset(Ranges(s)) == multiset(Ranges(Without(s, k))) + multiset{(s[k].iova, s[k].length)}
  {
    PutBack(s, k);
    RangesInsert(Without(s, k), k, s[k]);
  }

  lemma SortedWithout(s: seq<Region>, k: nat)
    requires Sorted(s) && k < |s|
    ensures Sorted(Without(s, k))
  {
    var w := Without(s, k);
    assert forall i :: 0 <= i < |w| ==> w[i] == s[if i < k then i else i + 1];
  }

  /** The regions `n` are the regions `s` and `r`, in order of their addresses. */
  ghost predicate PutIn(s: seq<Region>, r: Region, n: seq<Region>) {
    exists k :: 0 <= k <= |s| && Between(s, k, r.iova) && n == s[..k] + [r] + s[k..]
  }

  /** Rebalancing may give the tree any shape that keeps the order of the regions. */
  ghost predicate KeepsOrder(f: Tree -> Tree) {
    forall t :: InOrder(f(t)) == InOrder(t)
  }

  /** What the rest of the kernel answers during one call of afu_dma_map_region. */
  datatype Answers = Answers(
    regionAllocated: bool, accounted: int, pagesAllocated: bool, pinned: int, frames: seq<nat>,
    iova: Address, mapFailed: bool)

  predicate GoodArguments(userAddr: Address, length: Address) {
    userAddr % PAGE_SIZE == 0 && length % PAGE_SIZE == 0 && length > 0 && userAddr + length < U64
  }

  /** Are all pages pinned, so that only a later step can fail? */
  predicate PinsAll(length: Address, a: Answers) {
    a.accounted == 0 && a.pagesAllocated && 0 <= a.pinned == IntPages(length)
  }

  /** One page frame is given for every pinned page. */
  predicate GoodAnswers(length: Address, a: Answers) {
    PinsAll(length, a) ==> |a.frames| == IntPages(length)
  }

  /** The error of pinning, and the error of a later step. */
  function PinError(a: Answers): int {
    if a.accounted != 0 then a.accounted
    else if !a.pagesAllocated then ENOMEM
    else if a.pinned < 0 then a.pinned
    else EFAULT
  }

  function MapError(a: Answers): int {
    if !Contiguous(a.frames) then EINVAL else if a.mapFailed then EFAULT else EEXIST
  }

  predicate Contiguous(frames: seq<nat>) {
    forall i :: 0 <= i < |frames| ==> frames[i] == frames[0] + i
  }

  /** afu_dma_check_continuous_pages. */
  method CheckContinuousPages(frames: seq<nat>) returns (ok: bool)
    ensures ok == Contiguous(frames)
  {
    var i := 0;
    while i < |frames| - 1
      invariant 0 <= i && forall j :: 0 <= j <= i && j < |frames| ==> frames[j] == frames[0] + j
    {
      if frames[i] + 1 != frames[i + 1] {
        assert frames[i + 1] != frames[0] + (i + 1);
        return false;
      }
      i := i + 1;
    }
    return true;
  }

  class Afu {
    var regions: Tree
    var locked: int
    var pinned: int
    var mapped: multiset<(Address, Address)>
    const rebalance: Tree -> Tree

    ghost predicate Valid()
      reads this`regions
    {
      KeepsOrder(rebalance) && Sorted(InOrder(regions))
    }

    /** The account, the pins and the mappings are exactly those of the regions. */
    ghost predicate Balanced()
      reads this
    {
      && locked == pinned == TotalPages(InOrder(regions))
      && mapped == multiset(Ranges(InOrder(regions)))
    }

    constructor (rebalance: Tree -> Tree)
      requires KeepsOrder(rebalance)
      ensures Valid() && Balanced() && regions == Leaf
    {
      this.rebalance := rebalance;
      regions, locked, pinned, mapped := Leaf, 0, 0, multiset{};
    }

    /** afu_dma_pin_pages: all pages, or nothing changed. */
    method PinPages(length: Address, a: Answers) returns (ret: int)
      modifies this`locked, this`pinned
      ensures ret == 0 <==> PinsAll(length, a)
      ensures ret == 0 ==> locked == old(locked) + IntPages(length) && pinned == old(pinned) + IntPages(length)
      ensures ret != 0 ==> locked == old(locked) && pinned == old(pinned)
      ensures ret != 0 ==> ret == PinError(a)
    {
      var pages := IntPages(length);
      if a.accounted != 0 {
        return a.accounted;
      }
      locked := locked + pages;
      if !a.pagesAllocated {
        ret := ENOMEM;
      } else if a.pinned < 0 {
        ret := a.pinned;
      } else {
        pinned := pinned + a.pinned;
        if a.pinned == pages {
          return 0;
        }
        ret := EFAULT;
        pinned := pinned - a.pinned;
      }
      locked := locked - pages;
    }

    /** afu_dma_unpin_pages. */
    method UnpinPages(length: Address)
      modifies this`locked, this`pinned
      ensures locked == old(locked) - Pages(length) && pinned == old(pinned) - Pages(length)
    {
      pinned := pinned - Pages(length);
      locked := locked - Pages(length);
    }

    /** afu_dma_region_add. */
    method RegionAdd(r: Region) returns (ret: int)
      requires Valid()
      modifies this`regions
      ensures Valid()
      ensures ret == 0 <==> Inserted(old(regions), r).Some?
      ensures ret == 0 ==> PutIn(InOrder(old(regions)), r, InOrder(regions))
      ensures ret != 0 ==> regions == old(regions) && ret == EEXIST
    {
      var inserted := Inserted(regions, r);
      if inserted.None? {
        return EEXIST;
      }
      ghost var k := InsertedOrder(regions, r);
      SortedInsert(InOrder(regions), k, r);
      regions := rebalance(inserted.value);
      ret := 0;
    }

    /** The step of afu_dma_map_region after pinning: all undone by its own count of pages, or a new region. */
    method MapPinned(userAddr: Address, length: Address, a: Answers) returns (ret: int)
      requires Valid()
      modifies this
      ensures Valid()
      ensures ret == 0 <==>
              Contiguous(a.frames) && !a.mapFailed &&
              Inserted(old(regions), Region(userAddr, length, a.iova, false)).Some?
      ensures ret != 0 ==> ret == MapError(a)
      ensures ret == 0 ==> locked == old(locked) && pinned == old(pinned)
      ensures ret == 0 ==> mapped == old(mapped) + multiset{(a.iova, length)}
      ensures ret == 0 ==> PutIn(InOrder(old(regions)), Region(userAddr, length, a.iova, false), InOrder(regions))
      ensures ret != 0 ==> locked == old(locked) - Pages(length) && pinned == old(pinned) - Pages(length)
      ensures ret != 0 ==> mapped == old(mapped) && regions == old(regions)
    {
      var ok := CheckContinuousPages(a.frames);
      if !ok {
        ret := EINVAL;
      } else if a.mapFailed {
        ret := EFAULT;
      } else {
        mapped := mapped + multiset{(a.iova, length)};
        ret := RegionAdd(Region(userAddr, length, a.iova, false));
        if ret == 0 {
          return;
        }
        mapped := mapped - multiset{(a.iova, length)};
      }
      UnpinPages(length);
    }

    /** afu_dma_map_region. */
    method MapRegion(userAddr: Address, length: Address, a: Answers) returns (ret: int)
      requires Valid() && GoodAnswers(length, a)
      modifies this
      ensures Valid()
      ensures ret == 0 <==>
              Pinned(userAddr, length, a) && Contiguous(a.frames) && !a.mapFailed &&
              Inserted(old(regions), Region(userAddr, length, a.iova, false)).Some?
      ensures ret == 0 ==> PutIn(InOrder(old(regions)), Region(userAddr, length, a.iova, false), InOrder(regions))
      ensures ret != 0 ==> regions == old(regions)
      ensures ret != 0 ==> ret == if !GoodArguments(userAddr, length) then EINVAL else if !a.regionAllocated then ENOMEM
                                  else if !PinsAll(length, a) then PinError(a) else MapError(a)
      ensures ret == 0 ==> locked == old(locked) + IntPages(length) && pinned == old(pinned) + IntPages(length)
      ensures userAddr % 4096 != 0 || length % 4096 != 0 || length == 0 || userAddr + length >= U64 ==> ret == EINVAL
      ensures old(Balanced()) ==> (Balanced() <==> Pinned(userAddr, length, a) ==> Pages(length) < 0x8000_0000)
    {
      if userAddr % PAGE_SIZE != 0 || length % PAGE_SIZE != 0 || length == 0 {
        return EINVAL;
      }
      if (userAddr + length) % U64 < userAddr {
        return EINVAL;
      }
      if !a.regionAllocated {
        return ENOMEM;
      }
      ret := PinPages(length, a);
      if ret != 0 {
        return;
      }
      ret := MapPinned(userAddr, length, a);
      IntPagesExact(length);
      if ret == 0 {
        PutInSums(InOrder(old(regions)), Region(userAddr, length, a.iova, false), InOrder(regions));
      }
    }

    /** The end of afu_dma_unmap_region: the region leaves the tree, its mapping and its pins are given back. */
    method Release(r: Region, ghost k: nat)
      requires Valid() && k < |InOrder(regions)| && InOrder(regions)[k] == r
      modifies this
      ensures Valid() && InOrder(regions) == Without(InOrder(old(regions)), k)
      ensures old(Balanced()) ==> Balanced()
    {
      ghost var s := InOrder(regions);
      ErasedOrder(regions, k);
      SortedWithout(s, k);
      PagesWithout(s, k);
      RangesWithout(s, k);
      if Balanced() {
        TakeAway(mapped, (r.iova, r.length), multiset(Ranges(Without(s, k))));
      }
      regions := rebalance(Erased(regions, r.iova));
      mapped := mapped - multiset{(r.iova, r.length)};
      UnpinPages(r.length);
    }

    /** afu_dma_unmap_region. */
    method UnmapRegion(iova: Address) returns (ret: int)
      requires Valid()
      modifies this
      ensures Valid() && (old(Balanced()) ==> Balanced())
      ensures ret == 0 <==> exists k :: 0 <= k < |InOrder(old(regions))| && Removable(InOrder(old(regions))[k], iova)
      ensures ret == 0 ==> TakenOut(InOrder(old(regions)), iova, InOrder(regions))
      ensures forall k :: 0 <= k < |InOrder(old(regions))| && InOrder(old(regions))[k].iova == iova ==>
                var r := InOrder(old(regions))[k]; ret == 0 <==> !r.inUse && r.iova + r.length < U64
      ensures ret != 0 ==> regions == old(regions) && locked == old(locked) && mapped == old(mapped)
      ensures ret != 0 ==> ret == if Search(old(regions), iova, 0).Some? then EBUSY else EINVAL
    {
      var found := RegionFind(regions, iova, 0);
      StartFound(regions, iova);
      if found.None? {
        return EINVAL;
      }
      var r := found.value;
      if r.inUse {
        return EBUSY;
      }
      ghost var k :| 0 <= k < |InOrder(regions)| && InOrder(regions)[k] == r;
      Release(r, k);
      ret := 0;
    }

    /** One turn of afu_dma_region_destroy: the first region goes, its mapping only if its address is not zero. */
    method DestroyFirst()
      requires Valid() && regions.Node?
      modifies this
      ensures Valid() && InOrder(regions) == InOrder(old(regions))[1..]
      ensures locked == old(locked) - Pages(InOrder(old(regions))[0].length)
      ensures pinned == old(pinned) - Pages(InOrder(old(regions))[0].length)
      ensures mapped == AfterFirst(old(mapped), InOrder(old(regions))[0])
    {
      var r := First(regions);
      ghost var s := InOrder(regions);
      assert Without(s, 0) == s[1..];
      SortedWithout(s, 0);
      regions := rebalance(DropFirst(regions));
      if r.iova != 0 {
        mapped := mapped - multiset{(r.iova, r.length)};
      }
      UnpinPages(r.length);
    }

    /** afu_dma_region_destroy: everything is given back, except the mapping of a region at address zero. */
    method Destroy()
      requires Valid()
      modifies this
      ensures Valid() && regions == Leaf
      ensures old(Balanced()) ==> locked == pinned == 0 && mapped == LeftBehind(InOrder(old(regions)))
    {
      ghost var (s, balanced) := (InOrder(regions), Balanced());
      ghost var extra := multiset{};
      while regions.Node?
        invariant Valid() && Leaves(s, InOrder(regions), extra)
        invariant balanced ==> Holding(InOrder(regions), locked, pinned, mapped, extra)
        decreases |InOrder(regions)|
      {
        ghost var rest := InOrder(regions);
        LeavesNext(s, rest, extra);
        if balanced {
          HoldingNext(rest, locked, pinned, mapped, extra);
        }
        DestroyFirst();
        extra := extra + ZeroRange(rest[0]);
      }
      if balanced {
        NothingLeft(s, locked, pinned, mapped, extra);
      }
    }

    /** Any run of calls keeps the balance, if no accepted region is too long for the 32-bit count. */
    method Run(calls: seq<Call>)
      requires Valid() && Balanced()
      requires forall i :: 0 <= i < |calls| ==> Clean(calls[i])
      modifies this
      ensures Valid() && Balanced()
    {
      for i := 0 to |calls|
        invariant Valid() && Balanced()
      {
        match calls[i]
        case Map(userAddr, length, a) => var _ := MapRegion(userAddr, length, a);
        case Unmap(iova) => var _ := UnmapRegion(iova);
      }
    }
  }

  /** A region of 2^32 + 1 pages: one page is pinned and accounted for, all of them are mapped. */
  method LongRegion() returns (afu: Afu, ret: int)
    ensures fresh(afu) && afu.Valid() && ret == 0 && afu.locked == afu.pinned == 1 && !afu.Balanced()
    ensures TotalPages(InOrder(afu.regions)) == 0x1_0000_0001
  {
    afu := new Afu((t: Tree) => t);
    var length := 0x1000_0000_1000;
    var answers := Answers(true, 0, true, 1, [7], 0x1000, false);
    LongCounts(length, answers);
    ret := afu.MapRegion(0, length, answers);
    OnlyOne(Region(0, length, 0x1000, false), InOrder(afu.regions));
  }

  /** A region of one page at address zero: destroying the regions leaves it mapped. */
  method ZeroAddressStays() returns (afu: Afu)
    ensures fresh(afu) && afu.regions == Leaf && afu.locked == 0 && afu.mapped == multiset{(0, PAGE_SIZE)}
  {
    afu := new Afu((t: Tree) => t);
    var answers := Answers(true, 0, true, 1, [7], 0, false);
    assert IntPages(PAGE_SIZE) == 1 && Pinned(0, PAGE_SIZE, answers);
    var ret := afu.MapRegion(0, PAGE_SIZE, answers);
    ghost var k :| 0 <= k <= 0 && InOrder(afu.regions) == [][..k] + [Region(0, PAGE_SIZE, 0, false)] + [][k..];
    assert InOrder(afu.regions)[0].iova == 0;
    afu.Destroy();
  }

  lemma LongCounts(length: Address, a: Answers)
    requires length == 0x1000_0000_1000 && a == Answers(true, 0, true, 1, [7], 0x1000, false)
    ensures IntPages(length) == 1 && Pages(length) == 0x1_0000_0001
    ensures Pinned(0, length, a) && GoodAnswers(length, a) && Contiguous(a.frames)
  {
  }

  lemma OnlyOne(r: Region, n: seq<Region>)
    requires PutIn([], r, n)
    ensures TotalPages(n) == Pages(r.length)
  {
    PutInSums([], r, n);
  }

  datatype Call = Map(userAddr: Address, length: Address, answers: Answers) | Unmap(iova: Address)

  predicate Clean(c: Call) {
    c.Map? ==>
      GoodAnswers(c.length, c.answers) && (Pinned(c.userAddr, c.length, c.answers) ==> Pages(c.length) < 0x8000_0000)
  }

  /** What destroying the regions leaves mapped: at most one region, the first, is at address zero. */
  function LeftBehind(s: seq<Region>): multiset<(Address, Address)> {
    if s == [] then multiset{} else ZeroRange(s[0])
  }

  /** What the regions gone so far leave behind, when `rest` is still there. */
  ghost predicate Leaves(s: seq<Region>, rest: seq<Region>, extra: multiset<(Address, Address)>) {
    |rest| <= |s| &&
    if |rest| == |s| then rest == s && extra == multiset{}
    else extra == LeftBehind(s) && forall r :: r in rest ==> r.iova != 0
  }

  lemma LeavesNext(s: seq<Region>, rest: seq<Region>, extra: multiset<(Address, Address)>)
    requires Leaves(s, rest, extra) && Sorted(rest) && rest != []
    ensures Leaves(s, rest[1..], extra + ZeroRange(rest[0]))
  {
    assert forall i :: 0 <= i < |rest| - 1 ==> rest[1..][i] == rest[i + 1] && rest[0].iova < rest[i + 1].iova;
  }

  lemma NothingLeft(s: seq<Region>, locked: int, pinned: int, mapped: multiset<(Address, Address)>,
                    extra: multiset<(Address, Address)>)
    requires Leaves(s, [], extra) && Holding([], locked, pinned, mapped, extra)
    ensures locked == pinned == 0 && mapped == LeftBehind(s)
  {
    assert Ranges([]) == [];
  }

  /** Balanced, but for mappings that belong to no region. */
  ghost predicate Holding(s: seq<Region>, locked: int, pinned: int, mapped: multiset<(Address, Address)>,
                          extra: multiset<(Address, Address)>) {
    locked == pinned == TotalPages(s) && mapped == multiset(Ranges(s)) + extra
  }

  function AfterFirst(m: multiset<(Address, Address)>, r: Region): multiset<(Address, Address)> {
    if r.iova != 0 then m - multiset{(r.iova, r.length)} else m
  }

  lemma HoldingNext(s: seq<Region>, locked: int, pinned: int, mapped: multiset<(Address, Address)>,
                    extra: multiset<(Address, Address)>)
    requires s != [] && Holding(s, locked, pinned, mapped, extra)
    ensures Holding(s[1..], locked - Pages(s[0].length), pinned - Pages(s[0].length), AfterFirst(mapped, s[0]),
                    extra + ZeroRange(s[0]))
  {
    assert Without(s, 0) == s[1..];
    RangesWithout(s, 0);
    PagesWithout(s, 0);
  }

  lemma TakeAway<T>(m: multiset<T>, x: T, a: multiset<T>)
    requires m == a + multiset{x}
    ensures m - multiset{x} == a
  {
  }

  /** The mapping that a region at address zero leaves behind. */
  function ZeroRange(r: Region): multiset<(Address, Address)> {
    if r.iova == 0 then multiset{(r.iova, r.length)} else multiset{}
  }

  /** The arguments are good and all pages get pinned. */
  predicate Pinned(userAddr: Address, length: Address, a: Answers) {
    GoodArguments(userAddr, length) && a.regionAllocated && PinsAll(length, a)
  }

  lemma PutInSums(s: seq<Region>, r: Region, n: seq<Region>)
    requires PutIn(s, r, n)
    ensures TotalPages(n) == TotalPages(s) + Pages(r.length)
    ensures multiset(Ranges(n)) == multiset(Ranges(s)) + multiset{(r.iova, r.length)}
  {
    var k :| 0 <= k <= |s| && Between(s, k, r.iova) && n == s[..k] + [r] + s[k..];
    PagesInsert(s, k, r);
    RangesInsert(s, k, r);
  }

  /** A region that afu_dma_unmap_region can take out by its start address. */
  predicate Removable(r: Region, iova: Address) {
    r.iova == iova && r.length + iova < U64 && !r.inUse
  }

  ghost predicate TakenOut(s: seq<Region>, iova: Address, n: seq<Region>) {
    exists k :: 0 <= k < |s| && Removable(s[k], iova) && n == Without(s, k)
  }

  /** The search by start address, for every address. */
  lemma StartFound(t: Tree, iova: Address)
    requires Sorted(InOrder(t))
    ensures forall k :: 0 <= k < |InOrder(t)| && InOrder(t)[k].iova == iova && InOrder(t)[k].length + iova < U64 ==>
              Search(t, iova, 0) == Some(InOrder(t)[k])
    ensures Search(t, iova, 0).Some? ==>
              var r := Search(t, iova, 0).value; r in InOrder(t) && r.iova == iova && r.length + iova < U64
  {
    SearchSound(t, iova, 0);
    if Search(t, iova, 0).Some? {
      StartCovers(Search(t, iova, 0).value);
    }
    forall k | 0 <= k < |InOrder(t)| && InOrder(t)[k].iova == iova && InOrder(t)[k].length + iova < U64
      ensures Search(t, iova, 0) == Some(InOrder(t)[k])
    {
      SearchStart(t, iova, k);
    }
  }

  lemma SortedInsert(s: seq<Region>, k: nat, r: Region)
    requires Sorted(s) && Between(s, k, r.iova)
    ensures Sorted(s[..k] + [r] + s[k..])
  {
    var n := s[..k] + [r] + s[k..];
    forall i, j | 0 <= i < j < |n|
      ensures n[i].iova < n[j].iova
    {
      var (a, b) := (if i <= k then i else i - 1, if j <= k then j else j - 1);
      assert i != k ==> n[i] == s[a];
      assert j != k ==> n[j] == s[b];
    }
  }
}
