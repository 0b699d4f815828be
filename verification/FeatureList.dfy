/**
 The walk over a device feature list in driverso/fpga/dfl.c: one feature device for every FIU (the
 interface units: management engine or port), with the features that follow it. Memory, interrupt
 tables and the device core answer through `Kernel`, by the address of the header concerned.
 */
module FeatureList {
  import opened Common
  import opened FeatureHeaders
  import opened FeatureParams

  /** An error code of the kernel, or zero. */
  type Code = c: int | c <= 0

  /** Stands for a call that does not return. */
  const ENDLESS: int := 1

  datatype Kind = Fme | Port

  datatype Feature = Feature(id: nat, revision: nat, version: nat, start: nat, end: int, params: seq<Param>)

  datatype Device = Device(kind: Kind, base: nat, features: seq<Feature>)

  /** The answers, and how many features a commit that fails has taken off the list by then. */
  datatype Kernel = Kernel(claim: nat -> Code, create: nat -> Code, instance: nat -> Code, commit: nat -> Code,
                           drained: nat -> nat)

  predicate IsFiu(s: Space, at: nat) {
    s.dfh(at).kind == TYPE_FIU
  }

  function KindOf(id: nat): Option<Kind> {
    if id == 0 then Some(Fme) else if id == 1 then Some(Port) else None
  }

  /** feature_size: a header without an offset counts as 4 KiB. */
  function FeatureSize(d: Dfh): (n: nat)
    ensures n <= MAX_SIZE
  {
    if d.next != 0 then d.next else 4096
  }

  /** feature_id. */
  function FeatureId(d: Dfh): nat {
    if d.kind == TYPE_FIU then ID_FIU_HEADER
    else if d.kind == TYPE_PRIVATE then d.id
    else if d.kind == TYPE_AFU then ID_AFU
    else 0
  }

  /** What is left of a region after an offset: the difference of two 64-bit numbers, which wraps below zero. */
  function Room(len: nat, ofst: nat): int {
    if ofst <= len then len - ofst else U64 + len - ofst
  }

  /** Parameters only have to be read for a version 1 feature that has them. */
  predicate WithParams(s: Space, at: nat) {
    s.dfh(at).version == 1 && s.csr(at).hasParams
  }

  ghost function ParamBytes(s: Space, at: nat): ParamSize {
    if WithParams(s, at) then SizeOf(s.params(at), FeatureSize(s.dfh(at))) else Returned(0)
  }

  ghost predicate ParamsOk(s: Space, at: nat) {
    ParamBytes(s, at).Returned? && ParamBytes(s, at).size >= 0
  }

  ghost function ParamsOf(s: Space, at: nat): seq<Param> {
    if ParamsOk(s, at) then Copied(s.params(at), ParamBytes(s, at).size / 8) else []
  }

  /** A feature that is described by its own header. */
  ghost function OwnFeature(s: Space, at: nat): Feature {
    var d := s.dfh(at);
    var start :=
      if d.version != 1 then at else if s.csr(at).absolute then 2 * s.csr(at).address else at + s.csr(at).address;
    Feature(FeatureId(d), d.revision, d.version, start,
            start + (if d.version == 1 then s.csr(at).size else FeatureSize(d)) - 1, ParamsOf(s, at))
  }

  /** The user part of a port: its size is in the port's own header. */
  function AfuFeature(s: Space, base: nat, at: nat): Feature {
    Feature(ID_AFU, 0, 0, at, at + s.portSize(base) - 1, [])
  }

  class Builder {
    const space: Space
    const kernel: Kernel
    var device: Option<Kind>
    var start: nat
    var len: nat
    var features: seq<Feature>
    var committed: seq<Device>

    constructor (space: Space, kernel: Kernel)
      ensures this.space == space && this.kernel == kernel && device == None && committed == []
    {
      this.space, this.kernel := space, kernel;
      device, start, len, features, committed := None, 0, 0, [], [];
    }

    /** The parameters of a version 1 header, or an error. */
    method ReadParams(at: nat) returns (ret: int, p: seq<Param>)
      ensures ret == 0 <==> ParamsOk(space, at)
      ensures ret == ENDLESS <==> ParamBytes(space, at) == Endless
      ensures ret == 0 ==> p == ParamsOf(space, at) && Stepping(p, 0)
    {
      if space.dfh(at).version != 1 || !space.csr(at).hasParams {
        return 0, [];
      }
      var size;
      ghost var path;
      size, path := GetParamSize(space.params(at), FeatureSize(space.dfh(at)));
      if size == Endless {
        return ENDLESS, [];
      }
      if size.size < 0 {
        return size.size, [];
      }
      return 0, Copied(space.params(at), size.size / 8);
    }

    /** create_feature_instance for a feature with a header of its own. */
    method CreateOwn(ofst: nat) returns (ret: int)
      modifies this`features
      ensures ret == 0 <==> OwnOk(space, kernel, start, len, start + ofst)
      ensures ret == ENDLESS <==> ParamBytes(space, start + ofst) == Endless
      ensures features == old(features) + if ret == 0 then [OwnFeature(space, start + ofst)] else []
    {
      var d := space.dfh(start + ofst);
      var size := FeatureSize(d);
      var params;
      ret, params := ReadParams(start + ofst);
      if ret != 0 {
        return;
      }
      if Room(len, ofst) < size {
        return EINVAL;
      }
      ret := kernel.instance(start + ofst);
      if ret != 0 {
        return;
      }
      var (from, to) := (start + ofst, start + ofst + size - 1);
      if d.version == 1 {
        var csr := space.csr(start + ofst);
        from := if csr.absolute then 2 * csr.address else start + ofst + csr.address;
        to := from + csr.size - 1;
      }
      features := features + [Feature(FeatureId(d), d.revision, d.version, from, to, params)];
    }

    /** parse_feature_port_afu, and create_feature_instance for it: nothing is read at the offset itself. */
    method CreateAfu(ofst: nat) returns (ret: int)
      modifies this`features
      ensures ret <= 0 && (ret == 0 <==> AfuOk(space, kernel, start, len, start + ofst))
      ensures features == old(features) + if ret == 0 then [AfuFeature(space, start, start + ofst)] else []
    {
      var size := space.portSize(start);
      if Room(len, ofst) < size {
        return EINVAL;
      }
      ret := kernel.instance(start + ofst);
      if ret == 0 {
        features := features + [Feature(ID_AFU, 0, 0, start + ofst, start + ofst + size - 1, [])];
      }
    }

    /** parse_feature_afu. */
    method ParseAfu(ofst: nat) returns (ret: int)
      modifies this`features
      ensures ret == 0 <==> device.Some? && (device.value == Port ==> AfuOk(space, kernel, start, len, start + ofst))
      ensures ret <= 0
      ensures features ==
              old(features) + if ret == 0 && device.value == Port then [AfuFeature(space, start, start + ofst)] else []
    {
      if device.None? {
        return EINVAL;
      }
      match device.value
      case Port => ret := CreateAfu(ofst);
      case Fme => ret := 0;
    }

    /** build_info_prepare. */
    method Prepare(from: nat, length: nat) returns (ret: int)
      modifies this`start, this`len
      ensures ret == kernel.claim(from)
      ensures ret == 0 ==> start == from && len == length
      ensures ret != 0 ==> start == old(start) && len == old(len)
    {
      ret := kernel.claim(from);
      if ret == 0 {
        start, len := from, length;
      }
    }

    /** build_info_commit_dev: the features are taken off the list one by one before the device is added. */
    method CommitDevice() returns (ret: int)
      requires device.Some?
      modifies this`device, this`committed, this`features
      ensures ret == kernel.commit(start)
      ensures ret == 0 ==> device == None && features == [] &&
                           committed == old(committed) + [Device(old(device).value, start, old(features))]
      ensures ret != 0 ==> device == old(device) && committed == old(committed)
      ensures ret != 0 ==> features == Without(old(features), kernel.drained(start))
    {
      ret := kernel.commit(start);
      if ret != 0 {
        features := Without(features, kernel.drained(start));
        return;
      }
      committed := committed + [Device(device.value, start, features)];
      device, features := None, [];
    }

    /** build_info_create_dev. */
    method CreateDevice(id: nat) returns (ret: int)
      modifies this`device, this`features
      ensures ret <= 0 && (ret == 0 <==> KindOf(id).Some? && kernel.create(start) == 0)
      ensures ret == 0 ==> device == KindOf(id) && features == []
    {
      var kind := KindOf(id);
      if kind.None? {
        return EINVAL;
      }
      device, features := kind, [];
      ret := kernel.create(start);
    }

    /** The part of parse_feature_fiu after the rebasing: the device, its header, and its child. */
    method BeginDevice() returns (ret: int)
      modifies this`device, this`features
      ensures ret == 0 <==> FiuOk(space, kernel, start, len)
      ensures ret == ENDLESS <==> FiuEndless(space, kernel, start)
      ensures ret == 0 ==> device == KindOf(space.dfh(start).id) && features == FiuFeatures(space, start)
    {
      ret := CreateDevice(space.dfh(start).id);
      if ret != 0 {
        return;
      }
      ret := CreateOwn(0);
      if ret != 0 {
        return;
      }
      var offset := space.nextAfu(start);
      if offset != 0 {
        ret := ParseAfu(offset);
      }
    }

    /**
     parse_feature_fiu: the device before is committed, and the region starts anew at this header. Without a device
     before, the region stays, and what is read is the header at its start.
     */
    method ParseFiu(ofst: nat) returns (ret: int)
      requires ofst <= len
      modifies this
      ensures ret == 0 <==>
                if old(device).Some? then
                  kernel.commit(old(start)) == 0 && kernel.claim(old(start) + ofst) == 0 &&
                  FiuOk(space, kernel, old(start) + ofst, old(len) - ofst)
                else FiuOk(space, kernel, old(start), old(len))
      ensures ret == ENDLESS <==>
                if old(device).Some? then
                  kernel.commit(old(start)) == 0 && kernel.claim(old(start) + ofst) == 0 &&
                  FiuEndless(space, kernel, old(start) + ofst)
                else FiuEndless(space, kernel, old(start))
      ensures ret == 0 ==> start == old(start) + (if old(device).Some? then ofst else 0)
      ensures ret == 0 ==> start + len == old(start) + old(len)
      ensures ret == 0 ==> device == KindOf(space.dfh(start).id) && features == FiuFeatures(space, start)
      ensures ret == 0 ==>
                committed == WithDevice(old(committed), old(device), old(start), old(features))
    {
      if device.Some? {
        ret := CommitDevice();
        if ret != 0 {
          return;
        }
        ret := Prepare(start + ofst, len - ofst);
        if ret != 0 {
          return;
        }
      }
      ret := BeginDevice();
    }

    /** parse_feature for a header that is not an interface unit. */
    method ParseOther(ofst: nat) returns (ret: int)
      modifies this`features
      ensures ret == 0 <==> OtherOk(space, kernel, device, start, len, start + ofst)
      ensures ret == ENDLESS <==> OtherEndless(space, device, start + ofst)
      ensures ret == 0 ==> features == old(features) + OtherFeatures(space, device, start, start + ofst)
    {
      var kind := space.dfh(start + ofst).kind;
      if kind == TYPE_AFU {
        ret := ParseAfu(ofst);
      } else if kind == TYPE_PRIVATE {
        if device.None? {
          return EINVAL;
        }
        ret := CreateOwn(ofst);
      } else {
        ret := 0;
      }
    }

    /** The state between two headers: those before were parsed well, and the devices are those of the plan. */
    ghost predicate Between(from: nat, done: seq<nat>, end: nat, before: seq<Device>)
      reads this
    {
      && start + len == end
      && RunOk(space, kernel, from, done, end)
      && Planned(space, from, done, before, committed, device, start, features)
    }

    /** A turn at an interface unit. */
    method NextFiu(at: nat, end: nat, ghost from: nat, ghost done: seq<nat>, ghost before: seq<Device>)
      returns (ret: int)
      requires Between(from, done, end, before) && start <= at && at + DFH_SIZE <= end && IsFiu(space, at)
      modifies this
      ensures ret == 0 <==> RunOk(space, kernel, from, done + [at], end)
      ensures ret == ENDLESS <==> StepEndless(space, kernel, from, done, at, end)
      ensures ret == 0 ==> Between(from, done + [at], end, before) && start <= at
    {
      ghost var ofst := at - start;
      assert start + ofst == at && len - ofst == end - at && (device.Some? <==> Started(space, done));
      BeforeStart(space, from, done);
      RunFiu(space, kernel, from, done, at, end);
      PlannedFiu(space, from, done, before, committed, device, start, features, at);
      ret := ParseFiu(at - start);
      assert ret == 0 <==> RunOk(space, kernel, from, done + [at], end);
    }

    /** A turn at any other header. */
    method NextOther(at: nat, end: nat, ghost from: nat, ghost done: seq<nat>, ghost before: seq<Device>)
      returns (ret: int)
      requires Between(from, done, end, before) && start <= at && at + DFH_SIZE <= end && !IsFiu(space, at)
      modifies this`features
      ensures ret == 0 <==> RunOk(space, kernel, from, done + [at], end)
      ensures ret == ENDLESS <==> StepEndless(space, kernel, from, done, at, end)
      ensures ret == 0 ==> Between(from, done + [at], end, before)
    {
      ghost var ofst := at - start;
      assert start + ofst == at && len == end - start;
      RunOther(space, kernel, from, done, at, end);
      PlannedOther(space, from, done, before, committed, device, start, features, at);
      ret := ParseOther(at - start);
      assert ret == 0 <==> RunOk(space, kernel, from, done + [at], end);
    }

    /** One turn of the loop of parse_feature_list. */
    method ParseNext(at: nat, end: nat, ghost from: nat, ghost done: seq<nat>, ghost before: seq<Device>)
      returns (ret: int)
      requires Between(from, done, end, before) && start <= at < end
      modifies this
      ensures ret == 0 <==> RunOk(space, kernel, from, done + [at], end)
      ensures ret == ENDLESS <==> StepEndless(space, kernel, from, done, at, end)
      ensures ret == 0 ==> Between(from, done + [at], end, before) && start <= at
    {
      if end - at < DFH_SIZE {
        RunMore(space, kernel, from, done, at, end);
        return EINVAL;
      }
      if space.dfh(at).kind == TYPE_FIU {
        ret := NextFiu(at, end, from, done, before);
      } else {
        ret := NextOther(at, end, from, done, before);
      }
    }

    /** The body of the loop of parse_feature_list: a header, and the step to the next one. */
    method ParseStep(at: nat, end: nat, ghost from: nat, ghost done: seq<nat>, ghost before: seq<Device>)
      returns (ret: int, next: nat)
      requires Between(from, done, end, before) && start <= at < end
      requires Walk(space, from, end) == done + Walk(space, at, end)
      modifies this
      ensures ret == 0 ==> Between(from, done + [at], end, before) && start <= at < next
      ensures ret == 0 ==> Walk(space, from, end) == done + [at] + Walk(space, next, end)
      ensures ret != 0 ==> !RunOk(space, kernel, from, Walk(space, from, end), end)
      ensures ret != 0 ==> (ret == ENDLESS <==> RunEndless(space, kernel, from, Walk(space, from, end), end))
    {
      WalkSplit(space, done, at, end);
      next := end;
      ret := ParseNext(at, end, from, done, before);
      if ret != 0 {
        NotRun(space, kernel, from, done, at, Walk(space, at, end)[1..], end);
        FirstBad(space, kernel, from, done, at, Walk(space, at, end)[1..], end);
        return;
      }
      var d := space.dfh(at);
      if !d.endOfList && d.next != 0 {
        next := at + d.next;
      }
    }

    /** The loop of parse_feature_list; leaving it early is going on at the end. */
    method ParseAll(from: nat, end: nat, ghost before: seq<Device>) returns (ret: int, ghost done: seq<nat>)
      requires Between(from, [], end, before) && start == from
      modifies this
      ensures ret == 0 <==> RunOk(space, kernel, from, Walk(space, from, end), end)
      ensures ret == ENDLESS <==> RunEndless(space, kernel, from, Walk(space, from, end), end)
      ensures ret == 0 ==> done == Walk(space, from, end) && Between(from, done, end, before)
    {
      ret, done := 0, [];
      var at := from;
      while at < end
        invariant ret == 0 && start <= at && Between(from, done, end, before)
        invariant Walk(space, from, end) == done + Walk(space, at, end)
        decreases end - at
      {
        var next;
        ret, next := ParseStep(at, end, from, done, before);
        if ret != 0 {
          return;
        }
        done := done + [at];
        at := next;
      }
      assert Walk(space, from, end) == done;
      NeverCaught(space, kernel, from, done, end);
    }

    /** parse_feature_list. */
    method ParseList(from: nat, length: nat) returns (ret: int)
      requires device.None?
      modifies this
      ensures var ps := Walk(space, from, from + length);
              ret == 0 <==>
                kernel.claim(from) == 0 && RunOk(space, kernel, from, ps, from + length) &&
                (Started(space, ps) ==> kernel.commit(BaseOf(space, from, ps)) == 0)
      ensures var ps := Walk(space, from, from + length);
              ret == ENDLESS <==> kernel.claim(from) == 0 && RunEndless(space, kernel, from, ps, from + length)
      ensures ret == 0 ==>
                device.None? && committed == old(committed) + Plan(space, from, Walk(space, from, from + length))
      ensures ret == 0 ==> forall i :: |old(committed)| <= i < |committed| ==> KindRight(space, committed[i])
      ensures ret == 0 ==>
                forall p :: p in Places(space, from, Walk(space, from, from + length)) ==> space.dfh(p).id <= 1
    {
      ghost var before := committed;
      ret := Prepare(from, length);
      if ret != 0 {
        return;
      }
      ghost var done;
      ret, done := ParseAll(from, from + length, before);
      if ret != 0 {
        return;
      }
      PlannedDone(space, from, done, before, committed, device, start, features);
      PlanKinds(space, from, done);
      KnownPlaces(space, kernel, from, done, from + length);
      if device.Some? {
        ret := CommitDevice();
      }
    }
  }

  lemma WalkSplit(s: Space, done: seq<nat>, at: nat, end: nat)
    requires at < end
    ensures Walk(s, at, end) == [at] + Walk(s, at, end)[1..]
    ensures done + Walk(s, at, end) == done + [at] + Walk(s, at, end)[1..]
    ensures s.dfh(at).endOfList || s.dfh(at).next == 0 ==> Walk(s, at, end) == [at]
    ensures !s.dfh(at).endOfList && s.dfh(at).next != 0 ==> Walk(s, at, end)[1..] == Walk(s, at + s.dfh(at).next, end)
  {
  }

  lemma {:induction false} RunPrefix(s: Space, k: Kernel, from: nat, ps: seq<nat>, n: nat, end: nat)
    requires n <= |ps|
    ensures RunOk(s, k, from, ps, end) ==> RunOk(s, k, from, ps[..n], end)
  {
    if n < |ps| {
      RunPrefix(s, k, from, ps[..|ps| - 1], n, end);
      assert ps[..|ps| - 1][..n] == ps[..n];
    } else {
      assert ps[..n] == ps;
    }
  }

  lemma RunMore(s: Space, k: Kernel, from: nat, done: seq<nat>, at: nat, end: nat)
    ensures RunOk(s, k, from, done + [at], end) <==> RunOk(s, k, from, done, end) && StepOk(s, k, from, done, at, end)
  {
    assert (done + [at])[..|done|] == done;
  }

  lemma RunOther(s: Space, k: Kernel, from: nat, done: seq<nat>, at: nat, end: nat)
    requires RunOk(s, k, from, done, end) && !IsFiu(s, at) && BaseOf(s, from, done) <= at && at + DFH_SIZE <= end
    ensures var base := BaseOf(s, from, done);
            RunOk(s, k, from, done + [at], end) <==> OtherOk(s, k, DeviceAfter(s, from, done), base, end - base, at)
  {
    RunMore(s, k, from, done, at, end);
  }

  lemma RunFiu(s: Space, k: Kernel, from: nat, done: seq<nat>, at: nat, end: nat)
    requires RunOk(s, k, from, done, end) && IsFiu(s, at) && from <= at && at + DFH_SIZE <= end
    ensures RunOk(s, k, from, done + [at], end) <==>
            if Started(s, done) then
              k.commit(BaseOf(s, from, done)) == 0 && k.claim(at) == 0 && FiuOk(s, k, at, end - at)
            else FiuOk(s, k, from, end - from)
  {
    RunMore(s, k, from, done, at, end);
  }

  function Without(fs: seq<Feature>, n: nat): seq<Feature> {
    if n <= |fs| then fs[n..] else []
  }

  function WithDevice(committed: seq<Device>, device: Option<Kind>, base: nat, features: seq<Feature>): seq<Device> {
    committed + if device.Some? then [Device(device.value, base, features)] else []
  }

  /** The committed devices and the one being built are those of the plan. */
  ghost predicate Planned(s: Space, from: nat, done: seq<nat>, before: seq<Device>, committed: seq<Device>,
                          device: Option<Kind>, base: nat, features: seq<Feature>) {
    && before <= committed
    && from <= base == BaseOf(s, from, done) && device == DeviceAfter(s, from, done)
    && (device.Some? <==> Started(s, done))
    && Plan(s, from, done) ==
        committed[|before|..] + if device.Some? then [Device(device.value, base, features)] else []
  }

  /** A new interface unit commits the device before and starts its own. */
  lemma PlannedFiu(s: Space, from: nat, done: seq<nat>, before: seq<Device>, committed: seq<Device>,
                   device: Option<Kind>, base: nat, features: seq<Feature>, at: nat)
    requires Planned(s, from, done, before, committed, device, base, features) && IsFiu(s, at) && base <= at
    ensures var place := if device.Some? then at else base;
            KindOf(s.dfh(place).id).Some? ==>
              Planned(s, from, done + [at], before, WithDevice(committed, device, base, features),
                      KindOf(s.dfh(place).id), place, FiuFeatures(s, place))
  {
    assert (done + [at])[..|done|] == done;
    BeforeStart(s, from, done);
    assert WithDevice(committed, device, base, features)[|before|..] == Plan(s, from, done);
  }

  lemma {:induction false} BeforeStart(s: Space, from: nat, ps: seq<nat>)
    ensures !Started(s, ps) ==> BaseOf(s, from, ps) == from && Plan(s, from, ps) == []
  {
    if ps != [] {
      BeforeStart(s, from, ps[..|ps| - 1]);
    }
  }

  /** At the end of the list, all devices of the plan are there. */
  lemma PlannedDone(s: Space, from: nat, done: seq<nat>, before: seq<Device>, committed: seq<Device>,
                    device: Option<Kind>, base: nat, features: seq<Feature>)
    requires Planned(s, from, done, before, committed, device, base, features)
    ensures WithDevice(committed, device, base, features) == before + Plan(s, from, done)
    ensures (device.Some? <==> Started(s, done)) && base == BaseOf(s, from, done)
  {
    assert committed == before + committed[|before|..];
  }

  /** A device is a management engine exactly where the id of its header is zero, and a port exactly where it is one. */
  predicate KindRight(s: Space, d: Device) {
    (d.kind == Fme <==> s.dfh(d.base).id == 0) && (d.kind == Port <==> s.dfh(d.base).id == 1)
  }

  lemma {:induction false} PlanKinds(s: Space, from: nat, ps: seq<nat>)
    ensures forall i :: 0 <= i < |Plan(s, from, ps)| ==> KindRight(s, Plan(s, from, ps)[i])
  {
    if ps != [] {
      PlanKinds(s, from, ps[..|ps| - 1]);
    }
  }

  /** A unit with any other id, at its place, is refused. */
  lemma {:induction false} KnownPlaces(s: Space, k: Kernel, from: nat, ps: seq<nat>, end: nat)
    requires RunOk(s, k, from, ps, end)
    ensures forall p :: p in Places(s, from, ps) ==> s.dfh(p).id <= 1
  {
    if ps != [] {
      KnownPlaces(s, k, from, ps[..|ps| - 1], end);
    }
  }

  /** Any other header adds to the device being built, if there is one. */
  lemma PlannedOther(s: Space, from: nat, done: seq<nat>, before: seq<Device>, committed: seq<Device>,
                     device: Option<Kind>, base: nat, features: seq<Feature>, at: nat)
    requires Planned(s, from, done, before, committed, device, base, features) && !IsFiu(s, at)
    ensures Planned(s, from, done + [at], before, committed, device, base,
                    features + OtherFeatures(s, device, base, at))
  {
    assert (done + [at])[..|done|] == done;
    BeforeStart(s, from, done);
    if device.Some? {
      PlanOther(s, from, done, at, committed[|before|..], Device(device.value, base, features));
    }
  }

  lemma PlanOther(s: Space, from: nat, done: seq<nat>, at: nat, ds: seq<Device>, d: Device)
    requires !IsFiu(s, at) && Plan(s, from, done) == ds + [d]
    ensures Plan(s, from, done + [at]) ==
            ds + [Device(d.kind, d.base, d.features + OtherFeatures(s, Some(d.kind), d.base, at))]
  {
    assert (done + [at])[..|done|] == done;
    assert (ds + [d])[..|ds|] == ds;
  }

  ghost predicate OtherOk(s: Space, k: Kernel, device: Option<Kind>, base: nat, len: nat, at: nat)
    requires base <= at
  {
    if s.dfh(at).kind == TYPE_AFU then device.Some? && (device.value == Port ==> AfuOk(s, k, base, len, at))
    else if s.dfh(at).kind == TYPE_PRIVATE then device.Some? && OwnOk(s, k, base, len, at)
    else true
  }

  /** The only other thing that can happen at a header: its parameters are walked for ever. */
  ghost predicate OtherEndless(s: Space, device: Option<Kind>, at: nat) {
    s.dfh(at).kind == TYPE_PRIVATE && device.Some? && ParamBytes(s, at) == Endless
  }

  ghost predicate FiuEndless(s: Space, k: Kernel, base: nat) {
    KindOf(s.dfh(base).id).Some? && k.create(base) == 0 && ParamBytes(s, base) == Endless
  }

  ghost function OtherFeatures(s: Space, device: Option<Kind>, base: nat, at: nat): seq<Feature> {
    if s.dfh(at).kind == TYPE_AFU && device == Some(Port) then [AfuFeature(s, base, at)]
    else if s.dfh(at).kind == TYPE_PRIVATE then [OwnFeature(s, at)]
    else []
  }

  /** The headers of the list from `at` on. */
  function Walk(s: Space, at: nat, end: nat): seq<nat>
    decreases end - at
  {
    if at >= end then []
    else if s.dfh(at).endOfList || s.dfh(at).next == 0 then [at]
    else [at] + Walk(s, at + s.dfh(at).next, end)
  }

  /** Is there an interface unit among the headers? */
  predicate Started(s: Space, ps: seq<nat>) {
    ps != [] && (IsFiu(s, ps[|ps| - 1]) || Started(s, ps[..|ps| - 1]))
  }

  /**
   Where the region of the current device starts: at the last interface unit among the headers. The region is not
   moved for the first one, so that it starts at the start of the list, `from`.
   */
  function BaseOf(s: Space, from: nat, ps: seq<nat>): nat {
    if ps == [] then from
    else if IsFiu(s, ps[|ps| - 1]) then (if Started(s, ps[..|ps| - 1]) then ps[|ps| - 1] else from)
    else BaseOf(s, from, ps[..|ps| - 1])
  }

  function DeviceAfter(s: Space, from: nat, ps: seq<nat>): Option<Kind> {
    if Started(s, ps) then KindOf(s.dfh(BaseOf(s, from, ps)).id) else None
  }

  /** Does the header at `at` go well after the headers `before`? */
  ghost predicate StepOk(s: Space, k: Kernel, from: nat, before: seq<nat>, at: nat, end: nat) {
    var base := BaseOf(s, from, before);
    && end - at >= DFH_SIZE
    && (if !IsFiu(s, at) then base <= at && OtherOk(s, k, DeviceAfter(s, from, before), base, end - base, at)
        else if Started(s, before) then k.commit(base) == 0 && k.claim(at) == 0 && FiuOk(s, k, at, end - at)
        else from <= at && FiuOk(s, k, from, end - from))
  }

  /** Is the walk caught at the header at `at` after the headers `before`? */
  ghost predicate StepEndless(s: Space, k: Kernel, from: nat, before: seq<nat>, at: nat, end: nat) {
    var base := BaseOf(s, from, before);
    && end - at >= DFH_SIZE
    && (if !IsFiu(s, at) then OtherEndless(s, DeviceAfter(s, from, before), at)
        else if Started(s, before) then k.commit(base) == 0 && k.claim(at) == 0 && FiuEndless(s, k, at)
        else FiuEndless(s, k, from))
  }

  /** Is it caught at one of these headers, those before having gone well? */
  ghost predicate RunEndless(s: Space, k: Kernel, from: nat, ps: seq<nat>, end: nat) {
    exists n: nat :: n < |ps| && CaughtAt(s, k, from, ps, n, end)
  }

  ghost predicate CaughtAt(s: Space, k: Kernel, from: nat, ps: seq<nat>, n: nat, end: nat)
    requires n < |ps|
  {
    RunOk(s, k, from, ps[..n], end) && StepEndless(s, k, from, ps[..n], ps[n], end)
  }

  ghost predicate RunOk(s: Space, k: Kernel, from: nat, ps: seq<nat>, end: nat) {
    ps == [] || (RunOk(s, k, from, ps[..|ps| - 1], end) && StepOk(s, k, from, ps[..|ps| - 1], ps[|ps| - 1], end))
  }

  /** The devices of a list: a new one at every interface unit, and every other header adds to the last one. */
  ghost function Plan(s: Space, from: nat, ps: seq<nat>): seq<Device> {
    if ps == [] then [] else
      var (front, at) := (Plan(s, from, ps[..|ps| - 1]), ps[|ps| - 1]);
      if IsFiu(s, at) then
        var place := if Started(s, ps[..|ps| - 1]) then at else from;
        var kind := KindOf(s.dfh(place).id);
        if kind.Some? then front + [Device(kind.value, place, FiuFeatures(s, place))] else front
      else if front == [] then []
      else
        var last := front[|front| - 1];
        front[..|front| - 1] +
          [Device(last.kind, last.base, last.features + OtherFeatures(s, Some(last.kind), last.base, at))]
  }

  /** When does the feature at `at`, in the region of `len` bytes from `base`, become an instance? */
  ghost predicate OwnOk(s: Space, k: Kernel, base: nat, len: nat, at: nat)
    requires base <= at
  {
    && ParamsOk(s, at)
    && Room(len, at - base) >= FeatureSize(s.dfh(at))
    && k.instance(at) == 0
  }

  predicate AfuOk(s: Space, k: Kernel, base: nat, len: nat, at: nat)
    requires base <= at
  {
    Room(len, at - base) >= s.portSize(base) && k.instance(at) == 0
  }

  /** Does the interface unit at `base` have a child that becomes a feature? */
  predicate HasChild(s: Space, base: nat) {
    s.nextAfu(base) != 0 && KindOf(s.dfh(base).id) == Some(Port)
  }

  ghost predicate FiuOk(s: Space, k: Kernel, base: nat, len: nat) {
    && KindOf(s.dfh(base).id).Some? && k.create(base) == 0
    && OwnOk(s, k, base, len, base)
    && (HasChild(s, base) ==> AfuOk(s, k, base, len, base + s.nextAfu(base)))
  }

  /** In fields of the registers: an offset into the region, and the sizes against what is left of it. */
  lemma OwnExactly(s: Space, k: Kernel, base: nat, len: nat, ofst: nat)
    requires ofst <= len
    ensures OwnOk(s, k, base, len, base + ofst) <==>
            && ParamsOk(s, base + ofst) && k.instance(base + ofst) == 0
            && ofst + (if s.dfh(base + ofst).next == 0 then 4096 else s.dfh(base + ofst).next) <= len
  {
  }

  lemma AfuExactly(s: Space, k: Kernel, base: nat, len: nat, ofst: nat)
    requires ofst <= len
    ensures AfuOk(s, k, base, len, base + ofst) <==> k.instance(base + ofst) == 0 && ofst + s.portSize(base) <= len
  {
  }

  /** An interface unit is good exactly where its id is zero, or one with a good child if it has a child. */
  lemma FiuExactly(s: Space, k: Kernel, base: nat, len: nat)
    ensures FiuOk(s, k, base, len) <==>
            && k.create(base) == 0 && OwnOk(s, k, base, len, base)
            && (s.dfh(base).id == 0
                || (s.dfh(base).id == 1
                    && (s.nextAfu(base) == 0 || AfuOk(s, k, base, len, base + s.nextAfu(base)))))
  {
  }

  ghost function FiuFeatures(s: Space, base: nat): seq<Feature> {
    [OwnFeature(s, base)] + if HasChild(s, base) then [AfuFeature(s, base, base + s.nextAfu(base))] else []
  }

  /** A list with a bad header is bad. */
  lemma NotRun(s: Space, k: Kernel, from: nat, done: seq<nat>, at: nat, rest: seq<nat>, end: nat)
    requires !RunOk(s, k, from, done + [at], end)
    ensures !RunOk(s, k, from, done + [at] + rest, end)
  {
    RunPrefix(s, k, from, done + [at] + rest, |done| + 1, end);
    assert (done + [at] + rest)[..|done| + 1] == done + [at];
  }

  /** The first bad header tells whether the walk is caught in the list. */
  lemma FirstBad(s: Space, k: Kernel, from: nat, done: seq<nat>, at: nat, rest: seq<nat>, end: nat)
    requires RunOk(s, k, from, done, end) && !RunOk(s, k, from, done + [at], end)
    ensures StepEndless(s, k, from, done, at, end) <==> RunEndless(s, k, from, done + [at] + rest, end)
  {
    var ps := done + [at] + rest;
    assert ps[..|done|] == done && ps[|done|] == at && ps[..|done| + 1] == done + [at];
    forall n: nat | n < |ps| && CaughtAt(s, k, from, ps, n, end) ensures n == |done| {
      if n < |done| {
        CaughtStops(s, k, from, ps, n, |done|, end);
      } else if n > |done| {
        assert ps[..n][..|done| + 1] == done + [at];
        RunPrefix(s, k, from, ps[..n], |done| + 1, end);
      }
    }
    assert CaughtAt(s, k, from, ps, |done|, end) <==> StepEndless(s, k, from, done, at, end);
  }

  /** A walk that is caught does not get beyond the header. */
  lemma CaughtStops(s: Space, k: Kernel, from: nat, ps: seq<nat>, n: nat, m: nat, end: nat)
    requires n < m <= |ps| && CaughtAt(s, k, from, ps, n, end)
    ensures !RunOk(s, k, from, ps[..m], end)
  {
    assert ps[..n + 1] == ps[..n] + [ps[n]];
    RunMore(s, k, from, ps[..n], ps[n], end);
    RunPrefix(s, k, from, ps[..m], n + 1, end);
    assert ps[..m][..n + 1] == ps[..n + 1];
  }

  lemma NeverCaught(s: Space, k: Kernel, from: nat, ps: seq<nat>, end: nat)
    requires RunOk(s, k, from, ps, end)
    ensures !RunEndless(s, k, from, ps, end)
  {
    forall n: nat | n < |ps| ensures !CaughtAt(s, k, from, ps, n, end) {
      if CaughtAt(s, k, from, ps, n, end) {
        assert ps[..|ps|] == ps;
        CaughtStops(s, k, from, ps, n, |ps|, end);
      }
    }
  }

  /** The totals of the parameter walk at a header stay below the limit of an int. */
  ghost predicate TotalsFit(s: Space, at: nat) {
    WithParams(s, at) ==> WalkFits(s.params(at), FeatureSize(s.dfh(at)), 0)
  }

  /** Then the parameters of the feature are those of the chain in the registers. */
  lemma FittingParams(s: Space, at: nat)
    requires WithParams(s, at) && TotalsFit(s, at)
    ensures var end := WalkEnd(s.params(at), FeatureSize(s.dfh(at)), 0);
            && (ParamsOk(s, at) <==> end.Some?)
            && (end.Some? ==> ParamsOf(s, at) == Copied(s.params(at), end.value) && Chained(ParamsOf(s, at), 0))
  {
    var (area, max) := (s.params(at), FeatureSize(s.dfh(at)));
    FitsAgrees(area, max);
    var end := WalkEnd(area, max, 0);
    if end.Some? {
      WalkIsChained(area, max, 0, end.value);
    }
  }

  /** And a walk whose headers all have such totals is not caught. */
  lemma FittingEnds(s: Space, k: Kernel, from: nat, ps: seq<nat>, end: nat)
    requires TotalsFit(s, from) && forall p :: p in ps ==> TotalsFit(s, p)
    ensures !RunEndless(s, k, from, ps, end)
  {
    forall n: nat | n < |ps| ensures !CaughtAt(s, k, from, ps, n, end) {
      assert TotalsFit(s, ps[n]);
      NotEndless(s, ps[n]);
      NotEndless(s, from);
    }
  }

  lemma NotEndless(s: Space, at: nat)
    requires TotalsFit(s, at)
    ensures ParamBytes(s, at).Returned?
  {
    if WithParams(s, at) {
      FitsAgrees(s.params(at), FeatureSize(s.dfh(at)));
    }
  }

  /** A list of one management engine, of version 1, at whose parameters the walk is caught. */
  lemma CaughtAtOnce(regs: int -> Word, k: Kernel, length: nat)
    requires regs(0) == 0x4010_0100_0000_0000 && k.create(0) == 0 && length >= DFH_SIZE
    requires regs(PARAM_HDR) == 0xFFFF_FFF8_0000_0000 && regs(CSR_SIZE_GRP) == 0x8_8000_0000
    ensures RunEndless(Decoded(regs), k, 0, Walk(Decoded(regs), 0, length), length)
  {
    var s := Decoded(regs);
    assert s.dfh(0) == DfhFields(regs(0));
    assert s.dfh(0) == Dfh(0, 0, 0, true, 1, TYPE_FIU);
    EndlessTotals(regs, 0, FeatureSize(s.dfh(0)));
    assert ParamBytes(s, 0) == Endless;
    assert Walk(s, 0, length) == [0];
    assert [0][..0] == [];
    assert CaughtAt(s, k, 0, [0], 0, length);
  }

  /** The features that the headers after an interface unit add, up to the next one. */
  ghost function Following(s: Space, kind: Kind, base: nat, ps: seq<nat>): seq<Feature> {
    if ps == [] then [] else OtherFeatures(s, Some(kind), base, ps[0]) + Following(s, kind, base, ps[1..])
  }

  lemma PlanStart(s: Space, from: nat, a: seq<nat>, fiu: nat)
    requires IsFiu(s, fiu)
    ensures var place := if Started(s, a) then fiu else from;
            var kind := KindOf(s.dfh(place).id);
            kind.Some? ==>
              Plan(s, from, a + [fiu]) == Plan(s, from, a) + [Device(kind.value, place, FiuFeatures(s, place))]
  {
    assert (a + [fiu])[..|a|] == a;
  }

  /** Headers that are no interface units add their features to the last device. */
  lemma {:induction false} PlanGrows(s: Space, from: nat, ps: seq<nat>, b: seq<nat>, ds: seq<Device>, d: Device)
    requires Plan(s, from, ps) == ds + [d] && forall p :: p in b ==> !IsFiu(s, p)
    ensures Plan(s, from, ps + b) == ds + [Device(d.kind, d.base, d.features + Following(s, d.kind, d.base, b))]
    decreases |b|
  {
    if b == [] {
      assert ps + b == ps && d.features + [] == d.features;
    } else {
      var (at, rest) := (b[0], b[1..]);
      var more := OtherFeatures(s, Some(d.kind), d.base, at);
      PlanOther(s, from, ps, at, ds, d);
      PlanGrows(s, from, ps + [at], rest, ds, Device(d.kind, d.base, d.features + more));
      MoveFirst(ps, b);
      Associate(d.features, more, Following(s, d.kind, d.base, rest));
    }
  }

  lemma MoveFirst(ps: seq<nat>, b: seq<nat>)
    requires b != []
    ensures ps + b == ps + [b[0]] + b[1..]
  {
  }

  lemma Associate(a: seq<Feature>, b: seq<Feature>, c: seq<Feature>)
    ensures (a + b) + c == a + (b + c)
  {
  }

  /**
   The plan in segments: an interface unit, and the headers up to the next one, give one device. It is built at the
   unit's own header, except that the first one is built at the start of the list.
   */
  lemma PlanSegment(s: Space, from: nat, a: seq<nat>, fiu: nat, b: seq<nat>, place: nat, kind: Kind)
    requires IsFiu(s, fiu) && forall p :: p in b ==> !IsFiu(s, p)
    requires place == (if Started(s, a) then fiu else from) && KindOf(s.dfh(place).id) == Some(kind)
    ensures Plan(s, from, a + [fiu] + b) ==
            Plan(s, from, a) + [Device(kind, place, FiuFeatures(s, place) + Following(s, kind, place, b))]
  {
    PlanStart(s, from, a, fiu);
    PlanGrows(s, from, a + [fiu], b, Plan(s, from, a), Device(kind, place, FiuFeatures(s, place)));
  }

  /** The interface units of a list, and the devices' places. */
  function Fius(s: Space, ps: seq<nat>): seq<nat> {
    if ps == [] then [] else Fius(s, ps[..|ps| - 1]) + if IsFiu(s, ps[|ps| - 1]) then [ps[|ps| - 1]] else []
  }

  function Bases(ds: seq<Device>): seq<nat> {
    seq(|ds|, i requires 0 <= i < |ds| => ds[i].base)
  }

  /** The places at which the devices are built. */
  function Places(s: Space, from: nat, ps: seq<nat>): seq<nat> {
    if ps == [] then [] else
      var (front, at) := (ps[..|ps| - 1], ps[|ps| - 1]);
      Places(s, from, front) + if !IsFiu(s, at) then [] else if Started(s, front) then [at] else [from]
  }

  lemma {:induction false} PlacesAre(s: Space, from: nat, ps: seq<nat>)
    ensures Started(s, ps) <==> Fius(s, ps) != []
    ensures Places(s, from, ps) == if Started(s, ps) then [from] + Fius(s, ps)[1..] else []
  {
    if ps != [] {
      var (front, at) := (ps[..|ps| - 1], ps[|ps| - 1]);
      PlacesAre(s, from, front);
      var fius := Fius(s, front);
      assert fius != [] ==> [from] + fius[1..] + [at] == [from] + (fius + [at])[1..];
      assert [from] + [at][1..] == [from];
    }
  }

  lemma {:induction false} PlanPlaces(s: Space, k: Kernel, from: nat, ps: seq<nat>, end: nat)
    requires RunOk(s, k, from, ps, end)
    ensures Bases(Plan(s, from, ps)) == Places(s, from, ps)
  {
    if ps != [] {
      PlanPlaces(s, k, from, ps[..|ps| - 1], end);
      if !IsFiu(s, ps[|ps| - 1]) {
        SameBases(s, from, ps);
      }
    }
  }

  lemma SameBases(s: Space, from: nat, ps: seq<nat>)
    requires ps != [] && !IsFiu(s, ps[|ps| - 1])
    ensures Bases(Plan(s, from, ps)) == Bases(Plan(s, from, ps[..|ps| - 1]))
  {
    var (front, plan) := (Plan(s, from, ps[..|ps| - 1]), Plan(s, from, ps));
    assert |plan| == |front| && forall i :: 0 <= i < |plan| ==> plan[i].base == front[i].base;
  }

  /** One device for every interface unit, in order; only the place of the first one is the start of the list. */
  lemma OneDeviceEach(s: Space, k: Kernel, from: nat, ps: seq<nat>, end: nat)
    requires RunOk(s, k, from, ps, end)
    ensures Started(s, ps) <==> Fius(s, ps) != []
    ensures Bases(Plan(s, from, ps)) == if Started(s, ps) then [from] + Fius(s, ps)[1..] else []
  {
    PlacesAre(s, from, ps);
    PlanPlaces(s, k, from, ps, end);
  }

  /** So the places are right if and only if the first interface unit is the first header. */
  lemma PlacesRight(s: Space, k: Kernel, from: nat, ps: seq<nat>, end: nat)
    requires RunOk(s, k, from, ps, end) && Fius(s, ps) != []
    ensures Bases(Plan(s, from, ps)) == Fius(s, ps) <==> Fius(s, ps)[0] == from
  {
    OneDeviceEach(s, k, from, ps, end);
    var fius := Fius(s, ps);
    assert fius == [fius[0]] + fius[1..];
    assert ([from] + fius[1..])[0] == from;
  }

  lemma UnsupportedFirst(s: Space, k: Kernel, end: nat)
    requires s.dfh(0).kind == 5 && end >= DFH_SIZE
    ensures RunOk(s, k, 0, [0], end) && !Started(s, [0]) && Fius(s, [0]) == [] && Plan(s, 0, [0]) == []
  {
    var none: seq<nat> := [];
    assert none + [0] == [0] && [0][..|[0]| - 1] == none;
    assert !Started(s, none) && StepOk(s, k, 0, none, 0, end);
    RunMore(s, k, 0, none, 0, end);
  }

  /** An unsupported header before the only interface unit, whose device is then built at that header. */
  lemma PlaceWrong(s: Space, k: Kernel)
    requires s.dfh(0) == Dfh(0, 0, 0x1000, false, 0, 5) && s.dfh(0x1000) == Dfh(1, 0, 0, true, 0, TYPE_FIU)
    requires s.nextAfu(0) == 0 && k.create(0) == 0 && k.instance(0) == 0
    ensures Walk(s, 0, 0x2000) == [0, 0x1000] && RunOk(s, k, 0, [0, 0x1000], 0x2000)
    ensures Fius(s, [0, 0x1000]) == [0x1000] && Bases(Plan(s, 0, [0, 0x1000])) == [0]
    ensures Plan(s, 0, [0, 0x1000])[0].kind == Fme && s.dfh(0x1000).id == 1
  {
    var ps: seq<nat> := [0, 0x1000];
    assert Walk(s, 0x1000, 0x2000) == [0x1000];
    UnsupportedFirst(s, k, 0x2000);
    assert ps[..|ps| - 1] == [0];
    assert FiuOk(s, k, 0, 0x2000);
    assert Plan(s, 0, ps) == [Device(Fme, 0, FiuFeatures(s, 0))];
  }

  /** Where the feature of a header in the list, by its own size, must lie. */
  ghost predicate Inside(s: Space, kind: Option<Kind>, base: nat, at: nat, end: nat) {
    && ((IsFiu(s, at) || s.dfh(at).kind == TYPE_PRIVATE) ==>
          var place := if IsFiu(s, at) then base else at;
          s.dfh(place).version != 1 ==> OwnFeature(s, place).start == place && OwnFeature(s, place).end < end)
    && (s.dfh(at).kind == TYPE_AFU && kind == Some(Port) ==>
          AfuFeature(s, base, at).start == at && AfuFeature(s, base, at).end < end)
  }

  /** Every version 0 feature that the walk reaches lies inside the list. */
  lemma {:induction false} FeaturesInside(s: Space, k: Kernel, from: nat, ps: seq<nat>, end: nat, i: nat)
    requires RunOk(s, k, from, ps, end) && i < |ps|
    ensures Inside(s, DeviceAfter(s, from, ps[..i + 1]), BaseOf(s, from, ps[..i + 1]), ps[i], end)
  {
    RunPrefix(s, k, from, ps, i + 1, end);
    var (done, at) := (ps[..i], ps[i]);
    assert ps[..i + 1] == done + [at];
    RunMore(s, k, from, done, at, end);
    assert (done + [at])[..i] == done;
  }

  lemma {:induction false} WalkForward(s: Space, at: nat, end: nat, i: nat)
    requires i < |Walk(s, at, end)|
    ensures at <= Walk(s, at, end)[i] < end
    decreases i
  {
    if i > 0 {
      WalkForward(s, at + s.dfh(at).next, end, i - 1);
    }
  }

  lemma {:induction false} BaseForward(s: Space, from: nat, ps: seq<nat>)
    requires forall i :: 0 <= i < |ps| ==> from <= ps[i]
    ensures from <= BaseOf(s, from, ps)
  {
    if ps != [] {
      BaseForward(s, from, ps[..|ps| - 1]);
    }
  }

  /** For a whole list this means between its two ends. */
  lemma ListInside(s: Space, k: Kernel, from: nat, end: nat, i: nat)
    requires var ps := Walk(s, from, end); RunOk(s, k, from, ps, end) && i < |ps|
    ensures var ps := Walk(s, from, end);
            from <= ps[i] && from <= BaseOf(s, from, ps[..i + 1]) &&
            Inside(s, DeviceAfter(s, from, ps[..i + 1]), BaseOf(s, from, ps[..i + 1]), ps[i], end)
  {
    var ps := Walk(s, from, end);
    forall j | 0 <= j < |ps| ensures from <= ps[j] {
      WalkForward(s, from, end, j);
    }
    BaseForward(s, from, ps[..i + 1]);
    FeaturesInside(s, k, from, ps, end, i);
  }

  /** The child of a port, by its offset in NEXT_AFU, lies inside exactly when the offset does. */
  lemma ChildInside(s: Space, k: Kernel, base: nat, len: nat, offset: nat)
    requires AfuOk(s, k, base, len, base + offset) && len < U64 && offset < U64
    ensures offset + s.portSize(base) <= len <==> offset <= len
  {
  }

  /** In every register space, a child beyond the end of the region is accepted all the same. */
  lemma ChildBeyond(regs: int -> Word, k: Kernel, base: nat, len: nat)
    requires len < Decoded(regs).nextAfu(base) && k.instance(base + Decoded(regs).nextAfu(base)) == 0
    ensures AfuOk(Decoded(regs), k, base, len, base + Decoded(regs).nextAfu(base))
  {
    FieldRanges(regs, base);
  }

  /** The headers of a list, each where the one before says, up to the first that ends the list or points behind it. */
  ghost predicate Listing(s: Space, at: nat, end: nat, ps: seq<nat>) {
    && (ps == [] <==> at >= end) && (ps != [] ==> ps[0] == at)
    && (forall i :: 0 <= i < |ps| ==> ps[i] < end)
    && (forall i :: 0 <= i < |ps| - 1 ==> Leads(s, ps, i))
    && (ps != [] ==> var p := ps[|ps| - 1]; Ends(s, p) || p + s.dfh(p).next >= end)
  }

  /** The header `i` says where the next one is. */
  ghost predicate Leads(s: Space, ps: seq<nat>, i: nat)
    requires i + 1 < |ps|
  {
    !Ends(s, ps[i]) && ps[i + 1] == ps[i] + s.dfh(ps[i]).next
  }

  predicate Ends(s: Space, at: nat) {
    s.dfh(at).endOfList || s.dfh(at).next == 0
  }

  /** The walk is the only such list. */
  lemma {:induction false} WalkExactly(s: Space, at: nat, end: nat, ps: seq<nat>)
    ensures ps == Walk(s, at, end) <==> Listing(s, at, end, ps)
    decreases end - at
  {
    if at < end && !Ends(s, at) {
      var next := at + s.dfh(at).next;
      if Listing(s, at, end, ps) {
        ListingTail(s, at, end, ps);
        WalkExactly(s, next, end, ps[1..]);
        assert ps == [at] + ps[1..];
      }
      if ps == Walk(s, at, end) {
        WalkExactly(s, next, end, ps[1..]);
        ListingFront(s, at, end, ps[1..]);
        assert ps == [at] + ps[1..];
      }
    } else if at < end && Listing(s, at, end, ps) {
      assert |ps| > 1 ==> Leads(s, ps, 0);
      assert ps == [at];
    }
  }

  lemma ListingTail(s: Space, at: nat, end: nat, ps: seq<nat>)
    requires at < end && !Ends(s, at) && Listing(s, at, end, ps)
    ensures Listing(s, at + s.dfh(at).next, end, ps[1..])
  {
    var rest := ps[1..];
    if rest != [] {
      assert Leads(s, ps, 0);
    }
    forall i | 0 <= i < |rest| - 1 ensures Leads(s, rest, i) {
      assert Leads(s, ps, i + 1);
    }
  }

  lemma ListingFront(s: Space, at: nat, end: nat, rest: seq<nat>)
    requires at < end && !Ends(s, at) && Listing(s, at + s.dfh(at).next, end, rest)
    ensures Listing(s, at, end, [at] + rest)
  {
    var ps := [at] + rest;
    assert forall i :: 0 < i < |ps| ==> ps[i] == rest[i - 1];
    forall i | 0 <= i < |ps| - 1 ensures Leads(s, ps, i) {
      if i > 0 {
        assert Leads(s, rest, i - 1);
      }
    }
  }
}
