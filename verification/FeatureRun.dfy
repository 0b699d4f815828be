/**
 A run of the enumeration in driverso/fpga/dfl.c from register contents to committed devices: a management
 engine and a port, with all that the list walk reads of them.
 */
module FeatureRun {
  import opened Common
  import opened FeatureHeaders
  import opened FeatureParams
  import opened FeatureList

  /** A management engine with one private feature, and a port with a child and a private feature with a parameter. */
  ghost predicate TwoUnits(regs: int -> Word) {
    && regs(0) == 0x4000_0000_1000_1000 && regs(NEXT_AFU) == 0
    && regs(0x1000) == 0x3000_0000_1000_0023
    && regs(0x2000) == 0x4000_0000_1000_2001 && regs(0x2000 + NEXT_AFU) == 0x2000 && regs(0x2000 + PORT_CAP) == 0x400
    && regs(0x3000) == 0x3010_0100_0000_0010 && regs(0x3000 + CSR_ADDR) == 0x200
    && regs(0x3000 + CSR_SIZE_GRP) == 0x80_8000_0000 && regs(0x3000 + PARAM_HDR) == 0x11_0000_0001
  }

  lemma EngineRead(regs: int -> Word)
    requires TwoUnits(regs)
    ensures var s := Decoded(regs);
            && s.dfh(0) == Dfh(0, 1, 0x1000, false, 0, TYPE_FIU) && s.nextAfu(0) == 0
            && s.dfh(0x1000) == Dfh(0x23, 0, 0x1000, false, 0, TYPE_PRIVATE)
  {
    var s := Decoded(regs);
    assert s.dfh(0) == DfhFields(regs(0)) && s.dfh(0x1000) == DfhFields(regs(0x1000));
    DfhRead(0, 1, 0x1000, false, 0, 0, TYPE_FIU);
    DfhRead(0x23, 0, 0x1000, false, 0, 0, TYPE_PRIVATE);
    assert s.nextAfu(0) == regs(NEXT_AFU) % 0x100_0000;
  }

  lemma PortRead(regs: int -> Word)
    requires TwoUnits(regs)
    ensures var s := Decoded(regs);
            && s.dfh(0x2000) == Dfh(1, 2, 0x1000, false, 0, TYPE_FIU)
            && s.nextAfu(0x2000) == 0x2000 && s.portSize(0x2000) == 0x1000
  {
    var s := Decoded(regs);
    assert s.dfh(0x2000) == DfhFields(regs(0x2000));
    DfhRead(1, 2, 0x1000, false, 0, 0, TYPE_FIU);
    ChildRead(regs, 0x2000, 0x2000, 0, 0, 4, 0);
  }

  lemma PrivateRead(regs: int -> Word)
    requires TwoUnits(regs)
    ensures var s := Decoded(regs);
            && s.dfh(0x3000) == Dfh(0x10, 0, 0, true, 1, TYPE_PRIVATE)
            && s.csr(0x3000) == Csr(0x100, false, 0x80, true) && s.params(0x3000)(0) == Param(1, 2, true)
  {
    var s := Decoded(regs);
    assert s.dfh(0x3000) == DfhFields(regs(0x3000));
    DfhRead(0x10, 0, 0, true, 0, 1, TYPE_PRIVATE);
    assert s.csr(0x3000) == CsrFields(regs(0x3000 + CSR_ADDR), regs(0x3000 + CSR_SIZE_GRP));
    CsrRead(0x100, false, 0x80, true, 0);
    assert s.params(0x3000)(0) == ParamFields(regs(0x3000 + PARAM_HDR));
    ParamRead(1, 0, true, 0, 2);
  }

  /** The parameter of the last feature: two words, the first of them its header. */
  lemma TwoWords(s: Space)
    requires s.dfh(0x3000) == Dfh(0x10, 0, 0, true, 1, TYPE_PRIVATE)
    requires s.csr(0x3000) == Csr(0x100, false, 0x80, true) && s.params(0x3000)(0) == Param(1, 2, true)
    ensures ParamsOk(s, 0x3000) && ParamsOf(s, 0x3000) == [s.params(0x3000)(0), s.params(0x3000)(1)]
  {
    FittingParams(s, 0x3000);
    var area := s.params(0x3000);
    assert WalkEnd(area, 4096, 0) == Some(2);
    assert Copied(area, 2) == [area(0), area(1)];
  }

  lemma EngineStarts(s: Space, k: Kernel)
    requires s.dfh(0) == Dfh(0, 1, 0x1000, false, 0, TYPE_FIU) && s.nextAfu(0) == 0
    requires k.create(0) == 0 && k.instance(0) == 0
    ensures RunOk(s, k, 0, [0], 0x5000) && Started(s, [0]) && BaseOf(s, 0, [0]) == 0
  {
    var none: seq<nat> := [];
    FiuExactly(s, k, 0, 0x5000);
    OwnExactly(s, k, 0, 0x5000, 0);
    assert none + [0] == [0] && !Started(s, none) && [0][..0] == none;
    RunFiu(s, k, 0, none, 0, 0x5000);
  }

  lemma EngineRuns(s: Space, k: Kernel)
    requires RunOk(s, k, 0, [0], 0x5000) && Started(s, [0]) && BaseOf(s, 0, [0]) == 0 && s.dfh(0).id == 0
    requires s.dfh(0x1000) == Dfh(0x23, 0, 0x1000, false, 0, TYPE_PRIVATE) && k.instance(0x1000) == 0
    ensures RunOk(s, k, 0, [0, 0x1000], 0x5000) && Started(s, [0, 0x1000]) && BaseOf(s, 0, [0, 0x1000]) == 0
  {
    assert [0] + [0x1000] == [0, 0x1000] && [0, 0x1000][..1] == [0];
    OwnExactly(s, k, 0, 0x5000, 0x1000);
    RunOther(s, k, 0, [0], 0x1000, 0x5000);
  }

  lemma PortRuns(s: Space, k: Kernel)
    requires RunOk(s, k, 0, [0, 0x1000], 0x5000) && Started(s, [0, 0x1000]) && BaseOf(s, 0, [0, 0x1000]) == 0
    requires s.dfh(0x2000) == Dfh(1, 2, 0x1000, false, 0, TYPE_FIU)
    requires s.nextAfu(0x2000) == 0x2000 && s.portSize(0x2000) == 0x1000
    requires s.dfh(0x3000) == Dfh(0x10, 0, 0, true, 1, TYPE_PRIVATE) && ParamsOk(s, 0x3000)
    requires k.commit(0) == 0 && k.claim(0x2000) == 0 && k.create(0x2000) == 0
    requires k.instance(0x2000) == 0 && k.instance(0x4000) == 0 && k.instance(0x3000) == 0
    ensures RunOk(s, k, 0, [0, 0x1000, 0x2000, 0x3000], 0x5000)
    ensures BaseOf(s, 0, [0, 0x1000, 0x2000, 0x3000]) == 0x2000
  {
    var two: seq<nat>, three: seq<nat>, four: seq<nat> := [0, 0x1000], [0, 0x1000, 0x2000], [0, 0x1000, 0x2000, 0x3000];
    assert two + [0x2000] == three && three + [0x3000] == four && three[..2] == two && four[..3] == three;
    FiuExactly(s, k, 0x2000, 0x3000);
    OwnExactly(s, k, 0x2000, 0x3000, 0);
    AfuExactly(s, k, 0x2000, 0x3000, 0x2000);
    RunFiu(s, k, 0, two, 0x2000, 0x5000);
    assert Started(s, three) && BaseOf(s, 0, three) == 0x2000;
    OwnExactly(s, k, 0x2000, 0x3000, 0x1000);
    RunOther(s, k, 0, three, 0x3000, 0x5000);
  }

  /** The two devices, each with its own header first. */
  function Engine(): Device {
    Device(Fme, 0, [Feature(0xfe, 1, 0, 0, 0xfff, []), Feature(0x23, 0, 0, 0x1000, 0x1fff, [])])
  }

  function PortWith(params: seq<Param>): Device {
    Device(Port, 0x2000, [Feature(0xfe, 2, 0, 0x2000, 0x2fff, []), Feature(0xff, 0, 0, 0x4000, 0x4fff, []),
                          Feature(0x10, 0, 1, 0x3100, 0x317f, params)])
  }

  lemma EngineFeatures(s: Space)
    requires s.dfh(0) == Dfh(0, 1, 0x1000, false, 0, TYPE_FIU) && s.nextAfu(0) == 0
    requires s.dfh(0x1000) == Dfh(0x23, 0, 0x1000, false, 0, TYPE_PRIVATE)
    ensures FiuFeatures(s, 0) + Following(s, Fme, 0, [0x1000]) == Engine().features
  {
    FollowingOne(s, Fme, 0, 0x1000);
  }

  lemma PortFeatures(s: Space)
    requires s.dfh(0x2000) == Dfh(1, 2, 0x1000, false, 0, TYPE_FIU)
    requires s.nextAfu(0x2000) == 0x2000 && s.portSize(0x2000) == 0x1000
    requires s.dfh(0x3000) == Dfh(0x10, 0, 0, true, 1, TYPE_PRIVATE) && s.csr(0x3000) == Csr(0x100, false, 0x80, true)
    ensures FiuFeatures(s, 0x2000) + Following(s, Port, 0x2000, [0x3000]) == PortWith(ParamsOf(s, 0x3000)).features
  {
    FollowingOne(s, Port, 0x2000, 0x3000);
  }

  lemma FollowingOne(s: Space, kind: Kind, base: nat, p: nat)
    requires s.dfh(p).kind == TYPE_PRIVATE
    ensures Following(s, kind, base, [p]) == [OwnFeature(s, p)]
  {
    assert [p][1..] == [];
    assert Following(s, kind, base, []) == [];
  }

  lemma EnginePlan(s: Space)
    requires IsFiu(s, 0) && !IsFiu(s, 0x1000) && s.dfh(0).id == 0
    ensures Started(s, [0, 0x1000])
    ensures Plan(s, 0, [0, 0x1000]) == [Device(Fme, 0, FiuFeatures(s, 0) + Following(s, Fme, 0, [0x1000]))]
  {
    var none: seq<nat> := [];
    assert none + [0] + [0x1000] == [0, 0x1000] && [0, 0x1000][..1] == [0];
    assert !Started(s, none) && Plan(s, 0, none) == [] && Started(s, [0]);
    PlanSegment(s, 0, none, 0, [0x1000], 0, Fme);
  }

  lemma TwoUnitsPlan(s: Space)
    requires IsFiu(s, 0) && !IsFiu(s, 0x1000) && IsFiu(s, 0x2000) && !IsFiu(s, 0x3000)
    requires s.dfh(0).id == 0 && s.dfh(0x2000).id == 1
    ensures Plan(s, 0, [0, 0x1000, 0x2000, 0x3000]) ==
            [Device(Fme, 0, FiuFeatures(s, 0) + Following(s, Fme, 0, [0x1000])),
             Device(Port, 0x2000, FiuFeatures(s, 0x2000) + Following(s, Port, 0x2000, [0x3000]))]
  {
    EnginePlan(s);
    var two: seq<nat> := [0, 0x1000];
    assert two + [0x2000] + [0x3000] == [0, 0x1000, 0x2000, 0x3000];
    PlanSegment(s, 0, two, 0x2000, [0x3000], 0x2000, Port);
  }

  lemma TwoUnitsWalk(s: Space)
    requires s.dfh(0).next == s.dfh(0x1000).next == s.dfh(0x2000).next == 0x1000 && s.dfh(0x3000).endOfList
    requires !s.dfh(0).endOfList && !s.dfh(0x1000).endOfList && !s.dfh(0x2000).endOfList
    ensures Walk(s, 0, 0x5000) == [0, 0x1000, 0x2000, 0x3000]
  {
    WalkExactly(s, 0, 0x5000, [0, 0x1000, 0x2000, 0x3000]);
  }

  lemma TwoUnitsGood(regs: int -> Word, k: Kernel)
    requires TwoUnits(regs) && forall a: nat :: k.claim(a) == k.create(a) == k.instance(a) == k.commit(a) == 0
    ensures var (s, ps) := (Decoded(regs), [0, 0x1000, 0x2000, 0x3000]);
            && Walk(s, 0, 0x5000) == ps && RunOk(s, k, 0, ps, 0x5000)
            && Plan(s, 0, ps) == [Engine(), PortWith([ParamFields(regs(0x3028)), ParamFields(regs(0x3030))])]
  {
    var s := Decoded(regs);
    EngineRead(regs);
    PortRead(regs);
    PrivateRead(regs);
    TwoWords(s);
    assert s.params(0x3000)(0) == ParamFields(regs(0x3028)) && s.params(0x3000)(1) == ParamFields(regs(0x3030));
    EngineStarts(s, k);
    EngineRuns(s, k);
    PortRuns(s, k);
    TwoUnitsWalk(s);
    EngineFeatures(s);
    PortFeatures(s);
    TwoUnitsPlan(s);
  }

  /** A good list from the start of the address space. */
  method Enumerate(s: Space, k: Kernel, length: nat, ghost plan: seq<Device>) returns (b: Builder, ret: int)
    requires k.claim(0) == 0 && RunOk(s, k, 0, Walk(s, 0, length), length) && plan == Plan(s, 0, Walk(s, 0, length))
    requires forall a: nat :: k.commit(a) == 0
    ensures ret == 0 && b.committed == plan
  {
    b := new Builder(s, k);
    ret := b.ParseList(0, length);
    assert [] + plan == plan;
  }

  /** With a kernel that takes everything, exactly these two devices are committed, with all their features. */
  method EnumerateTwo(regs: int -> Word) returns (b: Builder, ret: int)
    requires TwoUnits(regs)
    ensures ret == 0 && b.committed == [Engine(), PortWith([ParamFields(regs(0x3028)), ParamFields(regs(0x3030))])]
  {
    var yes := (a: nat) => 0;
    var k := Kernel(yes, yes, yes, yes, yes);
    TwoUnitsGood(regs, k);
    b, ret := Enumerate(Decoded(regs), k, 0x5000,
                        [Engine(), PortWith([ParamFields(regs(0x3028)), ParamFields(regs(0x3030))])]);
  }
}
