/**
 Sharing of ports in driverso/fpga/dfl.h, dfl.c and dfl-afu-main.c: opening and closing port devices,
 releasing ports for virtual functions and taking them back. The locks make every operation one step.
 */
module PortSharing {
  import opened Common

  /** A port: the id in its hardware, the id once it has been read, and its use. `files` are the open files. */
  datatype Port = Port(
    hardwareId: nat, id: Option<nat>, registered: bool, exclusive: bool, openCount: int, files: nat)

  /** What holds of every port in every state. */
  predicate Sound(p: Port) {
    && (p.exclusive ==> p.openCount == 1)
    && p.openCount == p.files + (if p.registered then 0 else 1)
    && (!p.registered ==> p.exclusive && p.files == 0 && p.id.Some?)
    && (p.id.Some? ==> p.id.value == p.hardwareId)
  }

  /** dfl_feature_dev_use_begin: refused while the port is held exclusively, or held at all for an exclusive use. */
  function UseBegin(p: Port, exclusive: bool): Option<Port> {
    if p.exclusive || (exclusive && p.openCount != 0) then None
    else Some(p.(exclusive := exclusive, openCount := p.openCount + 1))
  }

  /** dfl_feature_dev_use_end. */
  function UseEnd(p: Port): Port {
    if p.openCount <= 0 then p.(exclusive := false)
    else p.(exclusive := false, openCount := p.openCount - 1)
  }

  /** How many ports are released, and their ids. */
  function Released(ports: seq<Port>): nat {
    if ports == [] then 0 else Released(ports[..|ports| - 1]) + if ports[|ports| - 1].registered then 0 else 1
  }

  function ReleasedIds(ports: seq<Port>): set<nat> {
    if ports == [] then {} else
      var p := ports[|ports| - 1];
      ReleasedIds(ports[..|ports| - 1]) + if p.registered then {} else {p.hardwareId}
  }

  predicate DistinctIds(ports: seq<Port>) {
    forall i, j :: 0 <= i < j < |ports| ==> ports[i].hardwareId != ports[j].hardwareId
  }

  lemma {:induction false} ReleasedUpdate(ports: seq<Port>, i: nat, p: Port)
    requires i < |ports|
    ensures Released(ports[i := p]) - Released(ports) ==
            (if p.registered then 0 else 1) - (if ports[i].registered then 0 else 1)
  {
    var n := |ports| - 1;
    if i == n {
      assert ports[i := p][..n] == ports[..n];
    } else {
      ReleasedUpdate(ports[..n], i, p);
      assert ports[i := p][..n] == ports[..n][i := p];
    }
  }

  lemma {:induction false} ReleasedIdsAre(ports: seq<Port>, id: nat)
    ensures id in ReleasedIds(ports) <==>
            exists i :: 0 <= i < |ports| && !ports[i].registered && ports[i].hardwareId == id
  {
    if ports != [] {
      var (front, last) := (ports[..|ports| - 1], ports[|ports| - 1]);
      ReleasedIdsAre(front, id);
      assert forall i :: 0 <= i < |front| ==> front[i] == ports[i];
      assert ports[|ports| - 1] == last;
    }
  }

  /** With distinct ids, there are as many ids as released ports. */
  lemma {:induction false} ReleasedCount(ports: seq<Port>)
    requires DistinctIds(ports)
    ensures |ReleasedIds(ports)| == Released(ports)
  {
    if ports != [] {
      var (front, last) := (ports[..|ports| - 1], ports[|ports| - 1]);
      ReleasedCount(front);
      ReleasedIdsAre(front, last.hardwareId);
    }
  }

  /** No registered port has a released id. */
  lemma RegisteredApart(ports: seq<Port>, i: nat)
    requires DistinctIds(ports) && i < |ports| && ports[i].registered
    ensures ports[i].hardwareId !in ReleasedIds(ports)
  {
    ReleasedIdsAre(ports, ports[i].hardwareId);
  }

  /** The ports differ at most in what has been read of their ids. */
  predicate SamePorts(a: seq<Port>, b: seq<Port>) {
    |a| == |b| && forall i :: 0 <= i < |a| ==> SamePort(a[i], b[i])
  }

  predicate SamePort(p: Port, q: Port) {
    p.(id := None) == q.(id := None) && (p.id.Some? ==> p.id == q.id)
  }

  class Container {
    var ports: seq<Port>
    var releasedPorts: int
    var virtual: set<nat>

    ghost predicate Valid()
      reads this
    {
      && (forall i :: 0 <= i < |ports| ==> Sound(ports[i]))
      && DistinctIds(ports)
      && releasedPorts == Released(ports)
    }

    /** Ports as they are after enumeration: registered, unused, ids not read. */
    constructor (ids: seq<nat>)
      requires forall i, j :: 0 <= i < j < |ids| ==> ids[i] != ids[j]
      ensures Valid() && virtual == {} && |ports| == |ids|
    {
      ports := seq(|ids|, i requires 0 <= i < |ids| => Port(ids[i], None, true, false, 0, 0));
      releasedPorts, virtual := 0, {};
      new;
      NoneReleased(ports);
    }

    /** afu_open. */
    method Open(i: nat, exclusive: bool) returns (ret: int)
      requires Valid() && i < |ports|
      modifies this`ports
      ensures Valid() && |ports| == |old(ports)|
      ensures ret == 0 <==> !old(ports)[i].exclusive && (exclusive ==> old(ports)[i].openCount == 0)
      ensures ret == 0 ==>
                ports[i].files == old(ports)[i].files + 1 && ports[i].registered && ports[i].exclusive == exclusive
      ensures ret != 0 ==> ports == old(ports)
      ensures forall j :: 0 <= j < |ports| && j != i ==> ports[j] == old(ports)[j]
    {
      var used := UseBegin(ports[i], exclusive);
      if used.None? {
        return EBUSY;
      }
      ReleasedUpdate(ports, i, used.value.(files := used.value.files + 1));
      ports := ports[i := used.value.(files := used.value.files + 1)];
      ret := 0;
    }

    /** afu_release, for a file that is open. */
    method Close(i: nat)
      requires Valid() && i < |ports| && ports[i].files > 0
      modifies this`ports
      ensures Valid() && |ports| == |old(ports)|
      ensures ports[i].files == old(ports)[i].files - 1 && !ports[i].exclusive
      ensures forall j :: 0 <= j < |ports| && j != i ==> ports[j] == old(ports)[j]
    {
      var p := UseEnd(ports[i]);
      ReleasedUpdate(ports, i, p.(files := p.files - 1));
      ports := ports[i := p.(files := p.files - 1)];
    }

    /** The first reading of a port's id. */
    method ReadId(i: nat)
      requires Valid() && i < |ports| && ports[i].id.None?
      modifies this`ports
      ensures Valid() && SamePorts(old(ports), ports) && ports[i].id == Some(ports[i].hardwareId)
      ensures forall j :: 0 <= j < |ports| && j != i ==> ports[j] == old(ports)[j]
    {
      ReleasedUpdate(ports, i, ports[i].(id := Some(ports[i].hardwareId)));
      ports := ports[i := ports[i].(id := Some(ports[i].hardwareId))];
    }

    /**
     __dfl_fpga_cdev_find_port with dfl_fpga_check_port_id: an id not known yet is read where the port's operations
     are there, and kept.
     */
    method FindPort(portId: nat, ready: nat -> bool) returns (found: Option<nat>)
      requires Valid()
      modifies this`ports
      ensures Valid() && SamePorts(old(ports), ports)
      ensures found.Some? ==> found.value < |ports| && ports[found.value].id == Some(portId)
      ensures found.None? ==>
                forall i :: 0 <= i < |ports| && ports[i].hardwareId == portId ==> ports[i].id.None? && !ready(i)
    {
      var i := 0;
      while i < |ports|
        invariant Valid() && SamePorts(old(ports), ports) && 0 <= i <= |ports|
        invariant forall k :: 0 <= k < i && ports[k].hardwareId == portId ==> ports[k].id.None? && !ready(k)
        decreases |ports| - i
      {
        if ports[i].id.None? && ready(i) {
          ReadId(i);
        }
        if ports[i].id == Some(portId) {
          return Some(i);
        }
        i := i + 1;
      }
      return None;
    }

    /** dfl_fpga_cdev_release_port: an unused port goes away from its users, held exclusively. */
    method ReleasePort(portId: nat, ready: nat -> bool) returns (ret: int, i: nat)
      requires Valid()
      modifies this`ports, this`releasedPorts
      ensures Valid() && |ports| == |old(ports)|
      ensures ret == 0 ==> i < |ports| && ports[i].hardwareId == portId && !ports[i].registered
      ensures ret == 0 ==> old(ports)[i].registered && old(ports)[i].openCount == 0
      ensures ret == 0 ==> releasedPorts == old(releasedPorts) + 1
      ensures ret == 0 ==> forall j :: 0 <= j < |ports| && j != i ==> SamePort(old(ports)[j], ports[j])
      ensures ret != 0 ==> SamePorts(old(ports), ports) && releasedPorts == old(releasedPorts)
      ensures ret == 0 || ret == EBUSY || ret == ENODEV
      ensures ret == EBUSY ==> exists j :: 0 <= j < |ports| && ports[j].hardwareId == portId && ports[j].openCount > 0
      ensures ret == ENODEV ==>
                forall j :: 0 <= j < |ports| && ports[j].hardwareId == portId ==> ports[j].id.None? && !ready(j)
    {
      var found := FindPort(portId, ready);
      if found.None? {
        return ENODEV, 0;
      }
      i := found.value;
      assert Sound(ports[i]) && SamePort(old(ports)[i], ports[i]);
      if !ports[i].registered {
        return EBUSY, i;
      }
      var used := UseBegin(ports[i], true);
      if used.None? {
        return EBUSY, i;
      }
      ReleasedUpdate(ports, i, used.value.(registered := false));
      ports := ports[i := used.value.(registered := false)];
      releasedPorts := releasedPorts + 1;
      ret := 0;
    }

    /** dfl_fpga_cdev_assign_port: a released port comes back, if the device core takes it. */
    method AssignPort(portId: nat, ready: nat -> bool, added: int) returns (ret: int, i: nat)
      requires Valid()
      modifies this`ports, this`releasedPorts
      ensures Valid() && |ports| == |old(ports)|
      ensures ret == 0 ==>
                i < |ports| && ports[i].hardwareId == portId && ports[i].registered && ports[i].openCount == 0
      ensures ret == 0 ==> !old(ports)[i].registered && releasedPorts == old(releasedPorts) - 1
      ensures ret == 0 ==> forall j :: 0 <= j < |ports| && j != i ==> SamePort(old(ports)[j], ports[j])
      ensures ret != 0 ==> SamePorts(old(ports), ports) && releasedPorts == old(releasedPorts)
      ensures added == 0 && ret != 0 ==>
                forall j :: 0 <= j < |ports| && ports[j].hardwareId == portId ==> ports[j].registered
    {
      var found := FindPort(portId, ready);
      if found.None? {
        return ENODEV, 0;
      }
      i := found.value;
      assert Sound(ports[i]) && SamePort(old(ports)[i], ports[i]);
      if ports[i].registered {
        return EBUSY, i;
      }
      if added != 0 {
        return added, i;
      }
      var p := UseEnd(ports[i].(registered := true));
      ReleasedUpdate(ports, i, p);
      ports := ports[i := p];
      releasedPorts := releasedPorts - 1;
      ret := 0;
    }

    /** Sets or clears the access bit of every released port. */
    method SwitchReleased(isVirtual: bool)
      requires Valid()
      modifies this`virtual
      ensures virtual == if isVirtual then old(virtual) + ReleasedIds(ports) else old(virtual) - ReleasedIds(ports)
    {
      assert ports[..|ports|] == ports;
      for i := 0 to |ports|
        invariant virtual ==
                  if isVirtual then old(virtual) + ReleasedIds(ports[..i]) else old(virtual) - ReleasedIds(ports[..i])
      {
        assert ports[..i + 1][..i] == ports[..i] && Sound(ports[i]);
        if !ports[i].registered {
          virtual := if isVirtual then virtual + {ports[i].id.value} else virtual - {ports[i].id.value};
        }
      }
    }

    /** dfl_fpga_cdev_config_ports_vf: exactly `count` ports are switched, none of them registered. */
    method ConfigPortsVf(count: int) returns (ret: int)
      requires Valid()
      modifies this`virtual
      ensures ret == 0 <==> count == Released(ports)
      ensures ret == 0 ==> virtual == old(virtual) + ReleasedIds(ports) && |ReleasedIds(ports)| == count
      ensures ret == 0 ==> forall i :: 0 <= i < |ports| && ports[i].registered ==>
                             (ports[i].hardwareId in virtual <==> ports[i].hardwareId in old(virtual))
      ensures ret != 0 ==> virtual == old(virtual)
    {
      if releasedPorts != count {
        return EINVAL;
      }
      SwitchReleased(true);
      ReleasedCount(ports);
      forall i | 0 <= i < |ports| && ports[i].registered
        ensures ports[i].hardwareId !in ReleasedIds(ports)
      {
        RegisteredApart(ports, i);
      }
      ret := 0;
    }

    /** dfl_fpga_cdev_config_ports_pf. */
    method ConfigPortsPf()
      requires Valid()
      modifies this`virtual
      ensures virtual == old(virtual) - ReleasedIds(ports)
    {
      SwitchReleased(false);
    }

    /** Whatever is done in whatever order, the invariants hold. */
    method Run(calls: seq<Call>)
      requires Valid()
      modifies this
      ensures Valid() && |ports| == |old(ports)|
    {
      for n := 0 to |calls|
        invariant Valid() && |ports| == |old(ports)|
      {
        match calls[n]
        case Open(i, exclusive) =>
          if i < |ports| { var _ := Open(i, exclusive); }
        case Close(i) =>
          if i < |ports| && ports[i].files > 0 { Close(i); }
        case Release(id, ready) => var _, _ := ReleasePort(id, ready);
        case Assign(id, ready, added) => var _, _ := AssignPort(id, ready, added);
        case ToVirtual(count) => var _ := ConfigPortsVf(count);
        case ToPhysical => ConfigPortsPf();
      }
    }
  }

  datatype Call =
    | Open(port: nat, exclusive: bool)
    | Close(port: nat)
    | Release(portId: nat, ready: nat -> bool)
    | Assign(portId: nat, ready: nat -> bool, added: int)
    | ToVirtual(count: int)
    | ToPhysical

  lemma {:induction false} NoneReleased(ports: seq<Port>)
    requires forall i :: 0 <= i < |ports| ==> ports[i].registered
    ensures Released(ports) == 0
  {
    if ports != [] {
      NoneReleased(ports[..|ports| - 1]);
    }
  }
}
