/** Ports of an accelerator card shared between its physical function and virtual functions: the open
    counter of drivers/fpga/dfl.h and the release, assign and SR-IOV operations of drivers/fpga/dfl.c and
    drivers/fpga/dfl-pci.c. Each operation runs under the container's and the port's mutex. */
module Ports {

  const EBUSY: int := 16
  const ENODEV: int := 19
  const EINVAL: int := 22

  /** A port's dfl_feature_dev_data: whether it has a platform device, its open counter, its access mode;
      `files` counts the device files open on it. */
  datatype Port = Port(id: nat, dev: bool, excl: bool, count: int, files: nat, vf: bool)

  /** The container: its port list and released_port_num. */
  datatype Cdev = Cdev(ports: seq<Port>, released: int)

  function UseBegin(p: Port, excl: bool): (r: (Port, int)) {
    if p.excl || (excl && p.count != 0) then
      (p, -EBUSY)
    else
      (p.(excl := p.excl || excl, count := p.count + 1), 0)
  }

  function UseEnd(p: Port): Port {
    if p.count <= 0 then p.(excl := false) else p.(excl := false, count := p.count - 1)
  }

  /** Every reference is counted: one for each open file and one for a released port; an exclusive user
      is the only one, and a released port is held exclusively. */
  predicate PortOk(p: Port) {
    p.count == p.files + (if p.dev then 0 else 1) && (p.excl ==> p.count == 1) && (!p.dev ==> p.excl)
  }

  function Gone(ports: seq<Port>): nat {
    if ports == [] then 0 else Gone(ports[..|ports| - 1]) + if ports[|ports| - 1].dev then 0 else 1
  }

  predicate Ok(c: Cdev) {
    (forall i :: 0 <= i < |c.ports| ==> PortOk(c.ports[i])) && c.released == Gone(c.ports)
  }

  lemma {:induction false} GoneUpdate(ports: seq<Port>, i: nat, p: Port)
    requires i < |ports|
    ensures Gone(ports[i := p]) == Gone(ports) + (if p.dev then 0 else 1) - if ports[i].dev then 0 else 1
    decreases |ports|
  {
    var n := |ports| - 1;
    if i < n {
      assert ports[i := p][..n] == ports[..n][i := p];
      GoneUpdate(ports[..n], i, p);
    } else {
      assert ports[i := p][..n] == ports[..n];
    }
  }

  lemma {:induction false} GoneZero(ports: seq<Port>)
    ensures Gone(ports) == 0 <==> forall i :: 0 <= i < |ports| ==> ports[i].dev
    decreases |ports|
  {
    if ports != [] {
      GoneZero(ports[..|ports| - 1]);
      assert ports == ports[..|ports| - 1] + [ports[|ports| - 1]];
    }
  }

  // ---------------------------------------------------------------- the steps

  datatype Event =
    | Open(i: nat, excl: bool)
    | Close(i: nat)
    | Release(id: nat)
    | Assign(id: nat, regRet: int)
    | ConfigPf
    | ConfigVf(numVfs: nat)

  /** The first port with an id, |ports| when there is none. */
  function Lookup(ports: seq<Port>, id: nat): (i: nat)
    ensures i <= |ports| && (i < |ports| ==> ports[i].id == id)
    ensures forall j :: 0 <= j < i ==> ports[j].id != id
  {
    if ports == [] then 0 else if ports[0].id == id then 0 else 1 + Lookup(ports[1..], id)
  }

  /** The released ports with their access mode set. */
  function WithMode(ports: seq<Port>, vf: bool): (r: seq<Port>)
    ensures |r| == |ports|
    ensures forall i :: 0 <= i < |ports| ==> r[i] == if ports[i].dev then ports[i] else ports[i].(vf := vf)
  {
    seq(|ports|, i requires 0 <= i < |ports| => if ports[i].dev then ports[i] else ports[i].(vf := vf))
  }

  /** Only an open file is closed. */
  predicate Possible(c: Cdev, e: Event) {
    match e
    case Open(i, _) => i < |c.ports|
    case Close(i) => i < |c.ports| && c.ports[i].files > 0
    case Release(_) => true
    case Assign(_, _) => true
    case ConfigPf => true
    case ConfigVf(_) => true
  }

  /** The new state and the value returned. */
  function Step(c: Cdev, e: Event): (Cdev, int)
    requires Possible(c, e)
  {
    match e
    case Open(i, excl) =>
      var (p, ret) := UseBegin(c.ports[i], excl);
      (c.(ports := c.ports[i := if ret == 0 then p.(files := p.files + 1) else p]), ret)
    case Close(i) =>
      (c.(ports := c.ports[i := UseEnd(c.ports[i].(files := c.ports[i].files - 1))]), 0)
    case Release(id) =>
      var i := Lookup(c.ports, id);
      if i == |c.ports| then (c, -ENODEV)
      else if !c.ports[i].dev then (c, -EBUSY)
      else
        var (p, ret) := UseBegin(c.ports[i], true);
        if ret != 0 then (c, ret) else (Cdev(c.ports[i := p.(dev := false)], c.released + 1), 0)
    case Assign(id, regRet) =>
      var i := Lookup(c.ports, id);
      if i == |c.ports| then (c, -ENODEV)
      else if c.ports[i].dev then (c, -EBUSY)
      else if regRet != 0 then (c, regRet)
      else (Cdev(c.ports[i := UseEnd(c.ports[i].(dev := true))], c.released - 1), 0)
    case ConfigPf =>
      (c.(ports := WithMode(c.ports, false)), 0)
    case ConfigVf(numVfs) =>
      if Gone(c.ports) != 0 && c.released != numVfs then (c, -EINVAL) else (c.(ports := WithMode(c.ports, true)), 0)
  }

  lemma UpdateOk(c: Cdev, i: nat, p: Port, released: int)
    requires Ok(c) && i < |c.ports| && PortOk(p)
    requires released == c.released + (if p.dev then 0 else 1) - if c.ports[i].dev then 0 else 1
    ensures Ok(Cdev(c.ports[i := p], released))
  {
    GoneUpdate(c.ports, i, p);
  }

  lemma {:induction false} SameGone(a: seq<Port>, b: seq<Port>)
    requires |a| == |b| && forall i :: 0 <= i < |a| ==> a[i].dev == b[i].dev
    ensures Gone(a) == Gone(b)
    decreases |a|
  {
    if a != [] { SameGone(a[..|a| - 1], b[..|b| - 1]); }
  }

  lemma StepOk(c: Cdev, e: Event)
    requires Ok(c) && Possible(c, e)
    ensures Ok(Step(c, e).0)
  {
    hide Gone;
    var t := Step(c, e).0;
    match e
    case Open(i, _) =>
      UpdateOk(c, i, t.ports[i], t.released);
    case Close(i) =>
      UpdateOk(c, i, t.ports[i], t.released);
    case Release(id) =>
      var i := Lookup(c.ports, id);
      if i < |c.ports| && t != c { UpdateOk(c, i, t.ports[i], t.released); }
    case Assign(id, _) =>
      var i := Lookup(c.ports, id);
      if i < |c.ports| && t != c { UpdateOk(c, i, t.ports[i], t.released); }
    case ConfigPf =>
      SameGone(c.ports, t.ports);
    case ConfigVf(_) =>
      SameGone(c.ports, t.ports);
  }

  // ---------------------------------------------------------------- whole runs

  /** Freshly enumerated ports. */
  predicate Fresh(c: Cdev) {
    c.released == 0 && forall i :: 0 <= i < |c.ports| ==>
      c.ports[i].dev && !c.ports[i].excl && c.ports[i].count == 0 && c.ports[i].files == 0
  }

  /** A run of operations in any order; one that is not possible when its turn comes does not happen. */
  function Run(c: Cdev, es: seq<Event>): Cdev
    decreases |es|
  {
    if es == [] then c else if Possible(c, es[0]) then Run(Step(c, es[0]).0, es[1..]) else Run(c, es[1..])
  }

  lemma {:induction false} RunOk(c: Cdev, es: seq<Event>)
    requires Ok(c)
    ensures Ok(Run(c, es))
    decreases |es|
  {
    if es != [] {
      if Possible(c, es[0]) {
        StepOk(c, es[0]);
        RunOk(Step(c, es[0]).0, es[1..]);
      } else {
        RunOk(c, es[1..]);
      }
    }
  }

  /** The states runs reach from enumeration on. */
  ghost predicate Reached(c: Cdev, start: Cdev, es: seq<Event>) {
    Fresh(start) && c == Run(start, es)
  }

  lemma ReachedOk(c: Cdev, start: Cdev, es: seq<Event>)
    requires Reached(c, start, es)
    ensures Ok(c)
  {
    GoneZero(start.ports);
    RunOk(start, es);
  }

  /** In every state a run reaches: an exclusive open is the only open; a port without a device is held
      exclusively, no file is open on it and every attempt to open it fails; and released_port_num is the
      number of ports without a device. */
  lemma EveryRunIsSafe(c: Cdev, start: Cdev, es: seq<Event>, i: nat, excl: bool)
    requires Reached(c, start, es) && i < |c.ports|
    ensures c.ports[i].excl ==> c.ports[i].count == 1
    ensures !c.ports[i].dev ==> c.ports[i].excl && c.ports[i].files == 0 && Step(c, Open(i, excl)) == (c, -EBUSY)
    ensures c.released == Gone(c.ports)
    ensures Step(c, Open(i, excl)).1 == 0 <==> !c.ports[i].excl && (excl ==> c.ports[i].files == 0)
  {
    ReachedOk(c, start, es);
    assert PortOk(c.ports[i]);
    if !c.ports[i].dev { assert c.ports[i := c.ports[i]] == c.ports; }
  }

  /** SR-IOV is accepted exactly when no port is released or as many are as virtual functions are asked
      for, and then it is the released ports and no others that are in VF mode because of it. */
  lemma VfExactly(c: Cdev, start: Cdev, es: seq<Event>, n: nat)
    requires Reached(c, start, es)
    ensures var (t, ret) := Step(c, ConfigVf(n));
      (ret == 0 <==> Gone(c.ports) == 0 || Gone(c.ports) == n) &&
      (ret != 0 ==> t == c) &&
      (ret == 0 ==> forall i :: 0 <= i < |c.ports| ==>
        t.ports[i] == if c.ports[i].dev then c.ports[i] else c.ports[i].(vf := true))
  {
    ReachedOk(c, start, es);
  }

  /** A port is released exactly when it exists, has a device and has no file open; then it has no device,
      is held exclusively and counts as released, and otherwise nothing changes. */
  lemma ReleaseExactly(c: Cdev, id: nat)
    requires Ok(c)
    ensures var (t, ret) := Step(c, Release(id));
      var i := Lookup(c.ports, id);
      (ret == 0 <==> i < |c.ports| && c.ports[i].dev && c.ports[i].files == 0) &&
      (ret == 0 ==> t == Cdev(c.ports[i := c.ports[i].(dev := false, excl := true, count := 1)], Gone(c.ports) + 1)) &&
      (ret != 0 ==> t == c && ret == if i == |c.ports| then -ENODEV else -EBUSY)
  {
    var i := Lookup(c.ports, id);
    if i < |c.ports| { assert PortOk(c.ports[i]); }
  }

  /** A port is assigned back exactly when it exists, is released and its device registers; then it has its
      device again, nobody has it open and it no longer counts as released. */
  lemma AssignExactly(c: Cdev, id: nat, regRet: int)
    requires Ok(c)
    ensures var (t, ret) := Step(c, Assign(id, regRet));
      var i := Lookup(c.ports, id);
      (ret == 0 <==> i < |c.ports| && !c.ports[i].dev && regRet == 0) &&
      (ret == 0 ==> t == Cdev(c.ports[i := c.ports[i].(dev := true, excl := false, count := 0)], Gone(c.ports) - 1)) &&
      (ret != 0 ==> t == c) &&
      (i == |c.ports| ==> ret == -ENODEV) &&
      (i < |c.ports| && c.ports[i].dev ==> ret == -EBUSY) &&
      (i < |c.ports| && !c.ports[i].dev ==> ret == regRet)
  {
    var i := Lookup(c.ports, id);
    if i < |c.ports| { assert PortOk(c.ports[i]); }
  }

  /** Assigning a released port back undoes its release. */
  lemma ReleaseThenAssign(c: Cdev, start: Cdev, es: seq<Event>, id: nat)
    requires Reached(c, start, es) && Step(c, Release(id)).1 == 0
    ensures Step(Step(c, Release(id)).0, Assign(id, 0)) == (c, 0)
  {
    ReachedOk(c, start, es);
    var i := Lookup(c.ports, id);
    assert PortOk(c.ports[i]);
    var t := Step(c, Release(id)).0;
    LookupSame(c.ports, i, t.ports[i], id);
    assert c.ports[i := t.ports[i]][i := c.ports[i]] == c.ports;
  }

  lemma {:induction false} LookupSame(ports: seq<Port>, i: nat, p: Port, id: nat)
    requires i < |ports| && p.id == ports[i].id
    ensures Lookup(ports[i := p], id) == Lookup(ports, id)
  {
    if i > 0 && ports[0].id != id {
      assert ports[i := p][1..] == ports[1..][i - 1 := p];
      LookupSame(ports[1..], i - 1, p, id);
    } else {
      assert ports[0 := p][1..] == ports[1..];
    }
  }

  /** No port is released, or exactly as many as virtual functions are asked for. */
  predicate Fits(ports: seq<Port>, numVfs: nat) {
    Gone(ports) == 0 || Gone(ports) == numVfs
  }

  // ---------------------------------------------------------------- the driver

  class Container {
    var ports: seq<Port>
    var released: int

    function View(): Cdev
      reads this
    {
      Cdev(ports, released)
    }

    constructor (ids: seq<nat>)
      ensures Fresh(View()) && Ok(View()) && |ports| == |ids|
    {
      ports := seq(|ids|, i requires 0 <= i < |ids| => Port(ids[i], true, false, 0, 0, false));
      released := 0;
      new;
      GoneZero(ports);
    }

    /** afu_open. */
    method OpenFile(i: nat, excl: bool) returns (ret: int)
      requires Ok(View()) && i < |ports|
      modifies this
      ensures (View(), ret) == Step(old(View()), Open(i, excl)) && Ok(View())
    {
      StepOk(View(), Open(i, excl));
      ret := Begin(i, excl);
      if ret == 0 {
        ports := ports[i := ports[i].(files := ports[i].files + 1)];
      }
      assert ports == Step(old(View()), Open(i, excl)).0.ports;
    }

    /** dfl_feature_dev_use_begin. */
    method Begin(i: nat, excl: bool) returns (ret: int)
      requires i < |ports|
      modifies this`ports
      ensures ports == old(ports)[i := UseBegin(old(ports)[i], excl).0] && ret == UseBegin(old(ports)[i], excl).1
    {
      if ports[i].excl {
        return -EBUSY;
      }
      if excl {
        if ports[i].count != 0 {
          return -EBUSY;
        }
        ports := ports[i := ports[i].(excl := true)];
      }
      ports := ports[i := ports[i].(count := ports[i].count + 1)];
      ret := 0;
    }

    /** dfl_feature_dev_use_end; its warning never fires. */
    method Finish(i: nat)
      requires i < |ports| && ports[i].count > 0
      modifies this`ports
      ensures ports == old(ports)[i := UseEnd(old(ports)[i])]
    {
      ports := ports[i := ports[i].(excl := false)];
      if ports[i].count <= 0 {
        return;
      }
      ports := ports[i := ports[i].(count := ports[i].count - 1)];
    }

    /** afu_release, as far as the counter goes. */
    method CloseFile(i: nat)
      requires Ok(View()) && Possible(View(), Close(i))
      modifies this
      ensures View() == Step(old(View()), Close(i)).0 && Ok(View())
    {
      StepOk(View(), Close(i));
      assert PortOk(ports[i]);
      ports := ports[i := ports[i].(files := ports[i].files - 1)];
      Finish(i);
    }

    /** __dfl_fpga_cdev_find_port_data. */
    method FindPort(id: nat) returns (i: nat)
      ensures i == Lookup(ports, id)
    {
      i := 0;
      while i < |ports|
        invariant 0 <= i <= |ports| && Lookup(ports, id) == i + Lookup(ports[i..], id)
      {
        if ports[i].id == id {
          return;
        }
        i := i + 1;
      }
    }

    /** dfl_fpga_cdev_release_port. */
    method ReleasePort(id: nat) returns (ret: int)
      requires Ok(View())
      modifies this
      ensures (View(), ret) == Step(old(View()), Release(id)) && Ok(View())
    {
      StepOk(View(), Release(id));
      hide Gone;
      var i := FindPort(id);
      if i == |ports| {
        return -ENODEV;
      }
      if !ports[i].dev {
        return -EBUSY;
      }
      assert ports[i := ports[i]] == ports;
      ret := Begin(i, true);
      if ret != 0 {
        return;
      }
      ports := ports[i := ports[i].(dev := false)];
      released := released + 1;
      assert ports == Step(old(View()), Release(id)).0.ports;
    }

    /** dfl_fpga_cdev_assign_port; `regRet` is what registering the platform device returns. */
    method AssignPort(id: nat, regRet: int) returns (ret: int)
      requires Ok(View())
      modifies this
      ensures (View(), ret) == Step(old(View()), Assign(id, regRet)) && Ok(View())
    {
      StepOk(View(), Assign(id, regRet));
      hide Gone;
      var i := FindPort(id);
      if i == |ports| {
        return -ENODEV;
      }
      if ports[i].dev {
        return -EBUSY;
      }
      if regRet != 0 {
        return regRet;
      }
      assert PortOk(ports[i]);
      ports := ports[i := ports[i].(dev := true)];
      Finish(i);
      released := released - 1;
      assert ports == Step(old(View()), Assign(id, regRet)).0.ports;
      ret := 0;
    }

    /** The loop of both configure functions: sets the mode of every port without a device. */
    method SetMode(vf: bool)
      modifies this`ports
      ensures ports == WithMode(old(ports), vf)
    {
      var i := 0;
      while i < |ports|
        invariant 0 <= i <= |ports| && |ports| == |old(ports)|
        invariant forall j :: 0 <= j < i ==> ports[j] == WithMode(old(ports), vf)[j]
        invariant forall j :: i <= j < |ports| ==> ports[j] == old(ports)[j]
      {
        if !ports[i].dev {
          ports := ports[i := ports[i].(vf := vf)];
        }
        i := i + 1;
      }
    }

    /** dfl_fpga_cdev_config_ports_vf. */
    method ConfigPortsVf(numVfs: nat) returns (ret: int)
      requires Ok(View())
      modifies this
      ensures (View(), ret) == Step(old(View()), ConfigVf(numVfs)) && Ok(View())
    {
      StepOk(View(), ConfigVf(numVfs));
      if ports == [] {
        return 0;
      }
      var portCount: nat := 0;
      for i := 0 to |ports|
        invariant portCount == Gone(ports[..i])
      {
        assert ports[..i + 1][..i] == ports[..i];
        if !ports[i].dev {
          portCount := portCount + 1;
        }
      }
      assert ports[..|ports|] == ports;
      if portCount != 0 && released != numVfs {
        return -EINVAL;
      }
      SetMode(true);
      ret := 0;
    }

    /** cci_pci_sriov_configure: either all released ports serve virtual functions, one each, or they
        are back in PF mode, or nothing changed. */
    method SriovConfigure(numVfs: nat, enableRet: int) returns (ret: int)
      requires Ok(View()) && enableRet <= 0
      modifies this
      ensures Ok(View())
      ensures numVfs == 0 ==> ret == 0 && ports == WithMode(old(ports), false)
      ensures numVfs > 0 && !old(Fits(ports, numVfs)) ==> ret == -EINVAL && ports == old(ports)
      ensures numVfs > 0 && old(Fits(ports, numVfs)) && enableRet == 0 ==>
        ret == numVfs && ports == WithMode(old(ports), true) && Gone(ports) == old(Gone(ports))
      ensures numVfs > 0 && old(Fits(ports, numVfs)) && enableRet != 0 ==>
        ret == enableRet && ports == WithMode(old(ports), false)
    {
      StepOk(View(), ConfigPf);
      if numVfs == 0 {
        SetMode(false);
        return 0;
      }
      ret := ConfigPortsVf(numVfs);
      if ret != 0 {
        return;
      }
      SameGone(old(ports), ports);
      if enableRet != 0 {
        SetMode(false);
        assert ports == WithMode(old(ports), false);
        return enableRet;
      }
      ret := numVfs;
    }
  }
}
