/** Shared virtual addressing handles, drivers/fpga/dfl-pci-sva.c: records for hot-pluggable devices, open
    files holding one IOMMU binding each, and removal of a device under open files. Every operation runs
    under the record's or the list's mutex, so an operation is one step. */
module Sva {
  import opened Common

  const EBUSY: int := 16
  const ENOMEM: int := 12
  const ENODEV: int := 19
  const EINVAL: int := 22

  /** One call of iommu_sva_bind_device that succeeded; `serial` numbers those calls. */
  datatype Binding = Binding(serial: nat, pasid: nat)

  /** struct dfl_sva_handle, with the record its file belongs to. */
  datatype Handle = Handle(dev: nat, bound: Option<Binding>)

  /** struct dfl_sva_dev: the device, None once removed, and the open files. */
  datatype Record = Record(pdev: Option<nat>, files: seq<nat>)

  /** What iommu_sva_bind_device may answer. */
  datatype BindAnswer = NoHandle | Failed(error: nat) | Bound(pasid: nat)

  /** All memory of the module, with a ledger of the outside calls: how many binds succeeded, which were
      undone in which order, which records were freed in which order, where SVA is enabled. */
  datatype World = World(
    recs: map<nat, Record>,
    devList: seq<nat>,
    handles: map<nat, Handle>,
    nextRec: nat,
    binds: nat,
    undone: seq<nat>,
    freed: seq<nat>,
    enabled: set<nat>)

  const EMPTY: World := World(map[], [], map[], 0, 0, [], [], {})

  predicate NoDup(s: seq<nat>) {
    forall i, j :: 0 <= i < j < |s| ==> s[i] != s[j]
  }

  lemma NoDupPush(s: seq<nat>, x: nat)
    requires NoDup(s) && x !in s
    ensures NoDup(s + [x]) && NoDup([x] + s)
  {
  }

  function Without(s: seq<nat>, x: nat): (r: seq<nat>)
    ensures forall y :: y in r <==> y in s && y != x
    ensures NoDup(s) ==> NoDup(r)
    ensures x !in s ==> r == s
  {
    if s == [] then
      []
    else
      assert NoDup(s) ==> NoDup(s[1..]) && s[0] !in s[1..];
      var rest := Without(s[1..], x);
      assert NoDup(s) ==> s[0] !in rest && NoDup([s[0]] + rest);
      if s[0] == x then rest else [s[0]] + rest
  }

  /** The ledger balances: a successful bind is either undone, once, or held by exactly one open file. */
  ghost predicate Balanced(handles: map<nat, Handle>, binds: nat, undone: seq<nat>) {
    NoDup(undone) && (forall t :: t in undone ==> t < binds) &&
    (forall f :: f in handles && handles[f].bound.Some? ==>
      handles[f].bound.value.serial < binds && handles[f].bound.value.serial !in undone) &&
    (forall f, g :: f in handles && g in handles && f != g && handles[f].bound.Some? && handles[g].bound.Some? ==>
      handles[f].bound.value.serial != handles[g].bound.value.serial) &&
    (forall t: nat :: t < binds && t !in undone ==> Held(handles, t))
  }

  ghost predicate Held(handles: map<nat, Handle>, t: nat) {
    exists f :: f in handles && handles[f].bound.Some? && handles[f].bound.value.serial == t
  }

  /** Files and records refer to each other, and to live memory only. */
  ghost predicate Linked(recs: map<nat, Record>, handles: map<nat, Handle>) {
    (forall f :: f in handles ==> handles[f].dev in recs && f in recs[handles[f].dev].files) &&
    (forall r :: r in recs ==> NoDup(recs[r].files)) &&
    (forall r, f :: r in recs && f in recs[r].files ==> f in handles && handles[f].dev == r)
  }

  /** The list holds exactly the records that still have a device, one per device. */
  ghost predicate Listed(recs: map<nat, Record>, devList: seq<nat>, enabled: set<nat>) {
    NoDup(devList) &&
    (forall r :: r in devList <==> r in recs && recs[r].pdev.Some?) &&
    (forall q, r :: q in recs && r in recs && q != r && recs[q].pdev.Some? ==> recs[q].pdev != recs[r].pdev) &&
    (forall p: nat :: p in enabled <==> Present(recs, p))
  }

  ghost predicate Present(recs: map<nat, Record>, p: nat) {
    exists r :: r in recs && recs[r].pdev == Some(p)
  }

  /** A record is freed once, and exactly when it has neither a device nor an open file. */
  ghost predicate Accounted(recs: map<nat, Record>, nextRec: nat, freed: seq<nat>) {
    NoDup(freed) &&
    (forall r: nat :: r < nextRec <==> r in recs || r in freed) &&
    (forall r :: r in freed ==> r !in recs) &&
    (forall r :: r in recs ==> recs[r].pdev.Some? || recs[r].files != [])
  }

  ghost predicate Inv(w: World) {
    Linked(w.recs, w.handles) && Listed(w.recs, w.devList, w.enabled) &&
    Accounted(w.recs, w.nextRec, w.freed) && Balanced(w.handles, w.binds, w.undone) &&
    BoundArePresent(w.recs, w.handles)
  }

  ghost predicate BoundArePresent(recs: map<nat, Record>, handles: map<nat, Handle>) {
    forall f :: f in handles && handles[f].bound.Some? ==> handles[f].dev in recs && recs[handles[f].dev].pdev.Some?
  }

  // ---------------------------------------------------------------- the steps, on values

  datatype Event =
    | Open(dev: nat, file: nat, memory: bool)
    | Bind(file: nat, hasMm: bool, answer: BindAnswer)
    | Unbind(file: nat)
    | Release(file: nat)
    | AddDev(pdev: nat, isDfl: bool, enableRet: int, memory: bool)
    | DelDev(pdev: nat, isDfl: bool)

  /** The kernel calls in only with an open file, opens only a node that exists, and gives each open file
      its own identity. */
  predicate Possible(w: World, e: Event) {
    match e
    case Open(dev, file, _) => dev in w.recs && file !in w.handles
    case Bind(file, _, _) => Live(w, file)
    case Unbind(file) => Live(w, file)
    case Release(file) => Live(w, file)
    case AddDev(_, _, _, _) => true
    case DelDev(_, _) => true
  }

  predicate Live(w: World, file: nat) {
    file in w.handles && w.handles[file].dev in w.recs
  }

  function Opened(w: World, dev: nat, file: nat): World
    requires dev in w.recs
  {
    w.(recs := w.recs[dev := w.recs[dev].(files := [file] + w.recs[dev].files)],
       handles := w.handles[file := Handle(dev, None)])
  }

  /** iommu_sva_unbind_device on the file's binding, if it has one. */
  function Undone(w: World, file: nat): World
    requires file in w.handles
  {
    var h := w.handles[file];
    if h.bound.None? then
      w
    else
      w.(handles := w.handles[file := h.(bound := None)], undone := w.undone + [h.bound.value.serial])
  }

  function UndoneAll(w: World, files: seq<nat>): (w': World)
    requires forall f :: f in files ==> f in w.handles
    ensures w'.handles.Keys == w.handles.Keys && w' == w.(handles := w'.handles, undone := w'.undone)
    decreases |files|
  {
    if files == [] then w else UndoneAll(Undone(w, files[0]), files[1..])
  }

  /** kfree of a record with neither device nor file. */
  function FreedIfUnused(w: World, dev: nat): World
    requires dev in w.recs
  {
    if w.recs[dev].pdev.None? && w.recs[dev].files == [] then
      w.(recs := w.recs - {dev}, freed := w.freed + [dev])
    else
      w
  }

  function Closed(w: World, file: nat): World
    requires Live(w, file)
  {
    var dev := w.handles[file].dev;
    w.(handles := w.handles - {file}, recs := w.recs[dev := w.recs[dev].(files := Without(w.recs[dev].files, file))])
  }

  function Released(w: World, file: nat): World
    requires Live(w, file)
  {
    FreedIfUnused(Closed(Undone(w, file), file), w.handles[file].dev)
  }

  /** The listed record of a device, in list order. */
  function Lookup(w: World, list: seq<nat>, pdev: nat): (r: Option<nat>)
    ensures r.Some? ==> r.value in list && r.value in w.recs && w.recs[r.value].pdev == Some(pdev)
    ensures r.None? ==> forall q :: q in list && q in w.recs ==> w.recs[q].pdev != Some(pdev)
  {
    if list == [] then
      None
    else if list[0] in w.recs && w.recs[list[0]].pdev == Some(pdev) then
      Some(list[0])
    else
      Lookup(w, list[1..], pdev)
  }

  function Added(w: World, pdev: nat): World {
    w.(recs := w.recs[w.nextRec := Record(Some(pdev), [])], devList := [w.nextRec] + w.devList,
       nextRec := w.nextRec + 1, enabled := w.enabled + {pdev})
  }

  function Unplugged(w: World, dev: nat): World
    requires dev in w.recs && w.recs[dev].pdev.Some?
  {
    w.(recs := w.recs[dev := w.recs[dev].(pdev := None)], devList := Without(w.devList, dev),
       enabled := w.enabled - {w.recs[dev].pdev.value})
  }

  function Deleted(w: World, dev: nat): World
    requires dev in w.recs && w.recs[dev].pdev.Some?
    requires forall f :: f in w.recs[dev].files ==> f in w.handles
  {
    FreedIfUnused(Unplugged(UndoneAll(w, w.recs[dev].files), dev), dev)
  }

  predicate FilesLive(w: World) {
    forall r, f :: r in w.recs && f in w.recs[r].files ==> f in w.handles
  }

  function Step(w: World, e: Event): World
    requires Possible(w, e) && FilesLive(w)
  {
    match e
    case Open(dev, file, memory) =>
      if w.recs[dev].pdev.Some? && memory then Opened(w, dev, file) else w
    case Bind(file, hasMm, answer) =>
      var h := w.handles[file];
      if w.recs[h.dev].pdev.Some? && hasMm && h.bound.None? && answer.Bound? then
        w.(handles := WithBound(w.handles, file, Some(Binding(w.binds, answer.pasid))), binds := w.binds + 1)
      else
        w
    case Unbind(file) =>
      if w.recs[w.handles[file].dev].pdev.Some? then Undone(w, file) else w
    case Release(file) =>
      Released(w, file)
    case AddDev(pdev, isDfl, enableRet, memory) =>
      if isDfl && Lookup(w, w.devList, pdev).None? && enableRet == 0 && memory then Added(w, pdev) else w
    case DelDev(pdev, isDfl) =>
      var found := Lookup(w, w.devList, pdev);
      if isDfl && found.Some? then Deleted(w, found.value) else w
  }

  // ---------------------------------------------------------------- every step keeps the invariant

  function WithBound(handles: map<nat, Handle>, file: nat, bound: Option<Binding>): map<nat, Handle>
    requires file in handles
  {
    handles[file := handles[file].(bound := bound)]
  }

  lemma LinkedBound(recs: map<nat, Record>, handles: map<nat, Handle>, file: nat, bound: Option<Binding>)
    requires Linked(recs, handles) && file in handles
    ensures Linked(recs, WithBound(handles, file, bound))
  {
  }

  lemma LinkedOpened(w: World, dev: nat, file: nat)
    requires Linked(w.recs, w.handles) && dev in w.recs && file !in w.handles
    ensures Linked(Opened(w, dev, file).recs, Opened(w, dev, file).handles)
  {
    NoDupPush(w.recs[dev].files, file);
  }

  lemma LinkedClosed(w: World, file: nat)
    requires Linked(w.recs, w.handles) && Live(w, file)
    ensures Linked(Closed(w, file).recs, Closed(w, file).handles)
  {
    hide NoDup;
  }

  lemma LinkedSubset(recs: map<nat, Record>, handles: map<nat, Handle>, dev: nat)
    requires Linked(recs, handles) && dev in recs && recs[dev].files == []
    ensures Linked(recs - {dev}, handles)
  {
    hide NoDup;
  }

  /** Presence depends on the devices of the records alone. */
  lemma SamePresence(a: map<nat, Record>, b: map<nat, Record>)
    requires a.Keys == b.Keys && forall r :: r in a ==> a[r].pdev == b[r].pdev
    ensures forall p: nat :: Present(a, p) <==> Present(b, p)
  {
    forall p: nat | Present(a, p) || Present(b, p)
      ensures Present(a, p) && Present(b, p)
    {
      var r :| r in a && (a[r].pdev == Some(p) || b[r].pdev == Some(p));
      assert b[r].pdev == Some(p);
    }
  }

  lemma ListedSame(a: map<nat, Record>, b: map<nat, Record>, devList: seq<nat>, enabled: set<nat>)
    requires Listed(a, devList, enabled)
    requires a.Keys == b.Keys && forall r :: r in a ==> a[r].pdev == b[r].pdev
    ensures Listed(b, devList, enabled)
  {
    hide Present;
    SamePresence(a, b);
  }

  /** Dropping a record without a device changes nothing on the list. */
  lemma ListedDrop(recs: map<nat, Record>, dev: nat, devList: seq<nat>, enabled: set<nat>)
    requires Listed(recs, devList, enabled) && dev in recs && recs[dev].pdev.None?
    ensures Listed(recs - {dev}, devList, enabled)
  {
    hide NoDup;
    var b := recs - {dev};
    forall p: nat
      ensures Present(recs, p) <==> Present(b, p)
    {
      if Present(recs, p) {
        var r :| r in recs && recs[r].pdev == Some(p);
        assert b[r].pdev == Some(p);
      }
    }
  }

  lemma ListedUnplugged(w: World, dev: nat)
    requires Listed(w.recs, w.devList, w.enabled) && dev in w.recs && w.recs[dev].pdev.Some?
    ensures Listed(Unplugged(w, dev).recs, Unplugged(w, dev).devList, Unplugged(w, dev).enabled)
  {
    hide NoDup;
    var t := Unplugged(w, dev);
    forall p: nat
      ensures p in t.enabled <==> Present(t.recs, p)
    {
      if p in t.enabled {
        var r :| r in w.recs && w.recs[r].pdev == Some(p);
        assert t.recs[r].pdev == Some(p);
      }
      if Present(t.recs, p) {
        var r :| r in t.recs && t.recs[r].pdev == Some(p);
        assert w.recs[r].pdev == Some(p);
        assert Present(w.recs, p);
      }
    }
  }

  lemma ListedAdded(w: World, pdev: nat)
    requires Listed(w.recs, w.devList, w.enabled) && Lookup(w, w.devList, pdev).None? && w.nextRec !in w.recs
    ensures Listed(Added(w, pdev).recs, Added(w, pdev).devList, Added(w, pdev).enabled)
  {
    var t := Added(w, pdev);
    NoDupPush(w.devList, w.nextRec);
    assert t.recs[w.nextRec].pdev == Some(pdev);
    forall p: nat
      ensures p in t.enabled <==> Present(t.recs, p)
    {
      if p in w.enabled {
        var r :| r in w.recs && w.recs[r].pdev == Some(p);
        assert t.recs[r].pdev == Some(p);
      }
      if Present(t.recs, p) && p != pdev {
        var r :| r in t.recs && t.recs[r].pdev == Some(p);
        assert w.recs[r].pdev == Some(p);
        assert Present(w.recs, p);
      }
    }
  }

  lemma BalancedHeld(a: map<nat, Handle>, b: map<nat, Handle>, binds: nat, undone: seq<nat>)
    requires Balanced(a, binds, undone)
    requires forall f :: f in b && b[f].bound.Some? ==> f in a && a[f].bound == b[f].bound
    requires forall f :: f in a && a[f].bound.Some? ==> f in b && a[f].bound == b[f].bound
    ensures Balanced(b, binds, undone)
  {
    hide NoDup;
    forall s: nat | s < binds && s !in undone
      ensures Held(b, s)
    {
      assert Held(a, s);
      var f :| f in a && a[f].bound.Some? && a[f].bound.value.serial == s;
      assert b[f].bound.value.serial == s;
    }
  }

  lemma BalancedBind(handles: map<nat, Handle>, binds: nat, undone: seq<nat>, file: nat, pasid: nat)
    requires Balanced(handles, binds, undone) && file in handles && handles[file].bound.None?
    ensures Balanced(WithBound(handles, file, Some(Binding(binds, pasid))), binds + 1, undone)
  {
    hide NoDup;
    var b := WithBound(handles, file, Some(Binding(binds, pasid)));
    forall s: nat | s < binds + 1 && s !in undone
      ensures Held(b, s)
    {
      if s < binds {
        assert Held(handles, s);
        var f :| f in handles && handles[f].bound.Some? && handles[f].bound.value.serial == s;
        assert b[f] == handles[f];
      } else {
        assert b[file].bound.value.serial == s;
      }
    }
  }

  lemma BalancedUndone(handles: map<nat, Handle>, binds: nat, undone: seq<nat>, file: nat)
    requires Balanced(handles, binds, undone) && file in handles && handles[file].bound.Some?
    ensures Balanced(WithBound(handles, file, None), binds, undone + [handles[file].bound.value.serial])
  {
    var b, was := WithBound(handles, file, None), handles[file].bound.value.serial;
    NoDupPush(undone, was);
    hide NoDup;
    forall s: nat | s < binds && s !in undone + [was]
      ensures Held(b, s)
    {
      assert Held(handles, s);
      var f :| f in handles && handles[f].bound.Some? && handles[f].bound.value.serial == s;
      assert b[f] == handles[f];
    }
  }

  lemma AccountedFreed(recs: map<nat, Record>, nextRec: nat, freed: seq<nat>, dev: nat)
    requires NoDup(freed) && dev in recs && (forall r: nat :: r < nextRec <==> r in recs || r in freed)
    requires forall r :: r in freed ==> r !in recs
    requires forall r :: r in recs && r != dev ==> recs[r].pdev.Some? || recs[r].files != []
    ensures Accounted(recs - {dev}, nextRec, freed + [dev])
  {
    NoDupPush(freed, dev);
  }

  lemma AccountedOpened(w: World, dev: nat, file: nat)
    requires Accounted(w.recs, w.nextRec, w.freed) && dev in w.recs
    ensures Accounted(Opened(w, dev, file).recs, w.nextRec, w.freed)
  {
    hide NoDup;
  }

  lemma OpenedInv(w: World, dev: nat, file: nat)
    requires Inv(w) && dev in w.recs && file !in w.handles && w.recs[dev].pdev.Some?
    ensures Inv(Opened(w, dev, file))
  {
    hide Linked; hide Listed; hide Balanced; hide NoDup;
    var t := Opened(w, dev, file);
    LinkedOpened(w, dev, file);
    ListedSame(w.recs, t.recs, w.devList, w.enabled);
    BalancedHeld(w.handles, t.handles, w.binds, w.undone);
    AccountedOpened(w, dev, file);
  }

  lemma BoundInv(w: World, file: nat, pasid: nat)
    requires Inv(w) && Live(w, file) && w.handles[file].bound.None? && w.recs[w.handles[file].dev].pdev.Some?
    ensures Inv(w.(handles := WithBound(w.handles, file, Some(Binding(w.binds, pasid))), binds := w.binds + 1))
  {
    hide Linked; hide Listed; hide Balanced; hide Accounted;
    LinkedBound(w.recs, w.handles, file, Some(Binding(w.binds, pasid)));
    BalancedBind(w.handles, w.binds, w.undone, file, pasid);
  }

  lemma UndoneInv(w: World, file: nat)
    requires Inv(w) && file in w.handles
    ensures Inv(Undone(w, file))
  {
    hide Linked; hide Listed; hide Balanced; hide Accounted;
    if w.handles[file].bound.Some? {
      LinkedBound(w.recs, w.handles, file, None);
      BalancedUndone(w.handles, w.binds, w.undone, file);
    }
  }

  lemma {:induction false} UndoneAllInv(w: World, files: seq<nat>)
    requires Inv(w) && forall f :: f in files ==> f in w.handles
    ensures Inv(UndoneAll(w, files))
    ensures var t := UndoneAll(w, files);
      forall f :: f in w.handles ==> t.handles[f] == if f in files then w.handles[f].(bound := None) else w.handles[f]
    decreases |files|
  {
    hide Inv;
    if files != [] {
      UndoneInv(w, files[0]);
      UndoneAllInv(Undone(w, files[0]), files[1..]);
    }
  }

  lemma LinkedPdev(recs: map<nat, Record>, handles: map<nat, Handle>, dev: nat, pdev: Option<nat>)
    requires Linked(recs, handles) && dev in recs
    ensures Linked(recs[dev := recs[dev].(pdev := pdev)], handles)
  {
    hide NoDup;
  }

  lemma UnboundPresent(w: World, dev: nat)
    requires Linked(w.recs, w.handles) && BoundArePresent(w.recs, w.handles) && dev in w.recs && w.recs[dev].pdev.Some?
    requires forall f :: f in w.recs[dev].files ==> f in w.handles && w.handles[f].bound.None?
    ensures BoundArePresent(Unplugged(w, dev).recs, w.handles)
    ensures forall f :: f in w.handles && w.handles[f].bound.Some? ==> w.handles[f].dev != dev
  {
    hide NoDup;
  }

  /** Removal of a device none of whose files is bound: the record stays while a file is open and is
      freed otherwise. */
  lemma UnpluggedInv(w: World, dev: nat)
    requires Inv(w) && dev in w.recs && w.recs[dev].pdev.Some?
    requires forall f :: f in w.recs[dev].files ==> f in w.handles && w.handles[f].bound.None?
    ensures Inv(FreedIfUnused(Unplugged(w, dev), dev))
  {
    hide Linked; hide Listed; hide Balanced; hide NoDup;
    var u := Unplugged(w, dev);
    LinkedPdev(w.recs, w.handles, dev, None);
    ListedUnplugged(w, dev);
    UnboundPresent(w, dev);
    if u.recs[dev].files == [] {
      LinkedSubset(u.recs, u.handles, dev);
      ListedDrop(u.recs, dev, u.devList, u.enabled);
      AccountedFreed(u.recs, u.nextRec, u.freed, dev);
      assert BoundArePresent(u.recs - {dev}, u.handles);
    }
  }

  lemma DeletedInv(w: World, dev: nat)
    requires Inv(w) && dev in w.recs && w.recs[dev].pdev.Some?
    requires forall f :: f in w.recs[dev].files ==> f in w.handles
    ensures Inv(Deleted(w, dev))
  {
    hide Inv;
    UndoneAllInv(w, w.recs[dev].files);
    UnpluggedInv(UndoneAll(w, w.recs[dev].files), dev);
  }

  lemma ReleasedInv(w: World, file: nat)
    requires Inv(w) && Live(w, file)
    ensures Inv(Released(w, file))
  {
    UndoneInv(w, file);
    ClosedInv(Undone(w, file), file);
    hide Inv;
  }

  lemma ClosedParts(u: World, file: nat)
    requires Inv(u) && Live(u, file) && u.handles[file].bound.None?
    ensures var c := Closed(u, file);
      Linked(c.recs, c.handles) && Listed(c.recs, c.devList, c.enabled) && Balanced(c.handles, c.binds, c.undone)
  {
    var c := Closed(u, file);
    LinkedClosed(u, file);
    ListedSame(u.recs, c.recs, u.devList, u.enabled);
    BalancedHeld(u.handles, c.handles, u.binds, u.undone);
    hide Linked; hide Listed; hide Balanced;
  }

  lemma ClosedInv(u: World, file: nat)
    requires Inv(u) && Live(u, file) && u.handles[file].bound.None?
    ensures Inv(FreedIfUnused(Closed(u, file), u.handles[file].dev))
  {
    hide NoDup; hide Linked; hide Listed; hide Balanced;
    var c, dev := Closed(u, file), u.handles[file].dev;
    ClosedParts(u, file);
    assert BoundArePresent(c.recs, c.handles);
    if c.recs[dev].pdev.None? && c.recs[dev].files == [] {
      LinkedSubset(c.recs, c.handles, dev);
      ListedDrop(c.recs, dev, c.devList, c.enabled);
      AccountedFreed(c.recs, c.nextRec, c.freed, dev);
      assert BoundArePresent(c.recs - {dev}, c.handles);
    } else {
      assert Accounted(c.recs, c.nextRec, c.freed);
    }
  }

  lemma AccountedAdded(recs: map<nat, Record>, nextRec: nat, freed: seq<nat>, pdev: nat)
    requires Accounted(recs, nextRec, freed)
    ensures Accounted(recs[nextRec := Record(Some(pdev), [])], nextRec + 1, freed) && nextRec !in recs
  {
    hide NoDup;
  }

  lemma LinkedAdded(recs: map<nat, Record>, handles: map<nat, Handle>, rec: nat, pdev: nat)
    requires Linked(recs, handles) && rec !in recs
    ensures Linked(recs[rec := Record(Some(pdev), [])], handles)
  {
    assert NoDup([]);
    hide NoDup;
  }

  lemma AddedInv(w: World, pdev: nat)
    requires Inv(w) && Lookup(w, w.devList, pdev).None?
    ensures Inv(Added(w, pdev))
  {
    hide Balanced; hide Listed; hide Linked; hide Accounted; hide Lookup;
    AccountedAdded(w.recs, w.nextRec, w.freed, pdev);
    LinkedAdded(w.recs, w.handles, w.nextRec, pdev);
    ListedAdded(w, pdev);
  }

  lemma StepInv(w: World, e: Event)
    requires Inv(w) && Possible(w, e) && FilesLive(w)
    ensures Inv(Step(w, e))
  {
    hide Inv;
    match e
    case Open(dev, file, memory) =>
      if w.recs[dev].pdev.Some? { OpenedInv(w, dev, file); }
    case Bind(file, hasMm, answer) =>
      if w.recs[w.handles[file].dev].pdev.Some? && w.handles[file].bound.None? && answer.Bound? {
        BoundInv(w, file, answer.pasid);
      }
    case Unbind(file) =>
      UndoneInv(w, file);
    case Release(file) =>
      ReleasedInv(w, file);
    case AddDev(pdev, _, _, _) =>
      if Lookup(w, w.devList, pdev).None? { AddedInv(w, pdev); }
    case DelDev(pdev, _) =>
      var found := Lookup(w, w.devList, pdev);
      if found.Some? { DeletedInv(w, found.value); }
  }

  // ---------------------------------------------------------------- whole runs

  /** A run from an empty module: events that are possible when they happen, in any order. */
  ghost predicate Reached(w: World, es: seq<Event>)
    decreases |es|
  {
    if es == [] then
      w == EMPTY
    else
      exists v :: Reached(v, es[..|es| - 1]) && Possible(v, es[|es| - 1]) && FilesLive(v) && w == Step(v, es[|es| - 1])
  }

  lemma {:induction false} RunInv(w: World, es: seq<Event>)
    requires Reached(w, es)
    ensures Inv(w)
    decreases |es|
  {
    if es != [] {
      var v :| Reached(v, es[..|es| - 1]) && Possible(v, es[|es| - 1]) && FilesLive(v) && w == Step(v, es[|es| - 1]);
      RunInv(v, es[..|es| - 1]);
      StepInv(v, es[|es| - 1]);
    }
  }

  /** After any run: an open file's record is live memory; no file of a removed device is bound, so SVA is
      enabled wherever something is bound; every bind that succeeded was undone once or is held by one
      open file; every record ever made is either live, with a device or an open file, or was freed once. */
  lemma EveryRunIsSafe(w: World, es: seq<Event>)
    requires Reached(w, es)
    ensures forall f :: f in w.handles ==> w.handles[f].dev in w.recs
    ensures forall f :: f in w.handles && w.handles[f].bound.Some? ==>
      w.recs[w.handles[f].dev].pdev.Some? && w.recs[w.handles[f].dev].pdev.value in w.enabled
    ensures NoDup(w.undone) && forall t: nat :: t < w.binds ==> (t in w.undone) != Held(w.handles, t)
    ensures NoDup(w.freed) && forall r: nat :: r < w.nextRec ==> (r in w.freed) != (r in w.recs)
    ensures forall r :: r in w.recs ==> w.recs[r].pdev.Some? || w.recs[r].files != []
  {
    RunInv(w, es);
    forall f | f in w.handles && w.handles[f].bound.Some?
      ensures w.recs[w.handles[f].dev].pdev.Some? && w.recs[w.handles[f].dev].pdev.value in w.enabled
    {
      assert Present(w.recs, w.recs[w.handles[f].dev].pdev.value);
    }
  }

  /** Once every file is closed and every device removed, nothing is left: all binds undone, each once,
      and all records freed, each once. */
  lemma NothingLeaks(w: World, es: seq<Event>)
    requires Reached(w, es) && w.handles == map[] && w.enabled == {}
    ensures NoDup(w.undone) && forall t: nat :: t in w.undone <==> t < w.binds
    ensures NoDup(w.freed) && forall r: nat :: r in w.freed <==> r < w.nextRec
    ensures w.recs == map[] && w.devList == []
  {
    RunInv(w, es);
    NoRecords(w);
    hide Linked; hide Listed; hide NoDup;
    assert forall t: nat :: !Held(w.handles, t);
  }

  lemma RecordIsUsed(w: World, r: nat)
    requires Inv(w) && r in w.recs
    ensures w.handles != map[] || w.enabled != {}
  {
    if w.recs[r].pdev.Some? {
      assert Present(w.recs, w.recs[r].pdev.value);
      assert w.recs[r].pdev.value in w.enabled;
    } else {
      var f := w.recs[r].files[0];
      assert f in w.recs[r].files;
      assert f in w.handles;
    }
  }

  lemma NoRecords(w: World)
    requires Inv(w) && w.handles == map[] && w.enabled == {}
    ensures w.recs == map[] && w.devList == []
  {
    forall r | r in w.recs
      ensures false
    {
      RecordIsUsed(w, r);
    }
    assert forall r :: r !in w.recs;
    assert w.recs == map[];
    ListIsLive(w);
  }

  lemma ListIsLive(w: World)
    requires Listed(w.recs, w.devList, w.enabled)
    ensures w.devList != [] ==> w.devList[0] in w.recs
  {
    assert w.devList != [] ==> w.devList[0] in w.devList;
  }

  /** History only grows: a step never takes back an undone bind or a freed record, and undoes only what
      a file held before it. */
  lemma HistoryGrows(w: World, e: Event)
    requires Inv(w) && Possible(w, e) && FilesLive(w)
    ensures var t := Step(w, e);
      w.undone <= t.undone && w.freed <= t.freed && w.binds <= t.binds && w.nextRec <= t.nextRec
    ensures forall s :: s in Step(w, e).undone && s !in w.undone ==> Held(w.handles, s)
  {
    UndoneOrBound(w, e);
    StepInv(w, e);
    hide Linked; hide Listed; hide Accounted; hide Step; hide NoDup;
    var t := Step(w, e);
    assert forall s :: s in t.undone ==> s < t.binds;
    assert forall s: nat :: s < w.binds && s !in w.undone ==> Held(w.handles, s);
  }

  lemma UndoneOrBound(w: World, e: Event)
    requires Possible(w, e) && FilesLive(w)
    ensures var t := Step(w, e);
      w.undone <= t.undone && w.freed <= t.freed && w.binds <= t.binds && w.nextRec <= t.nextRec &&
      (t.binds == w.binds || t.undone == w.undone)
  {
    if e.DelDev? && e.isDfl {
      var found := Lookup(w, w.devList, e.pdev);
      if found.Some? { UndoneAllGrows(w, w.recs[found.value].files); }
    }
  }

  lemma {:induction false} UndoneAllGrows(w: World, files: seq<nat>)
    requires forall f :: f in files ==> f in w.handles
    ensures w.undone <= UndoneAll(w, files).undone
    decreases |files|
  {
    if files != [] { UndoneAllGrows(Undone(w, files[0]), files[1..]); }
  }

  lemma OnlyOne(s: seq<nat>, x: nat)
    requires NoDup(s) && x in s && Without(s, x) == []
    ensures s == [x]
  {
    assert forall i :: 0 <= i < |s| ==> s[i] == x || s[i] in Without(s, x);
  }

  /** A removed device stays removed: its record never gets a device again and leaves memory only when
      its last file is closed. */
  lemma RemovalIsFinal(w: World, e: Event, dev: nat)
    requires Inv(w) && Possible(w, e) && FilesLive(w) && dev in w.recs && w.recs[dev].pdev.None?
    ensures var t := Step(w, e);
      if dev in t.recs then t.recs[dev].pdev.None? else e.Release? && w.recs[dev].files == [e.file]
  {
    hide NoDup; hide Balanced; hide Listed; hide UndoneAll;
    match e
    case Open(_, _, _) =>
    case Bind(_, _, _) =>
    case Unbind(_) =>
    case Release(file) =>
      ReleaseOfRemoved(w, file, dev);
    case AddDev(_, _, _, _) =>
      AccountedAdded(w.recs, w.nextRec, w.freed, 0);
    case DelDev(pdev, _) =>
      var found := Lookup(w, w.devList, pdev);
      assert found != Some(dev);
  }

  lemma ReleaseOfRemoved(w: World, file: nat, dev: nat)
    requires Linked(w.recs, w.handles) && Live(w, file) && dev in w.recs && w.recs[dev].pdev.None?
    ensures var t := Released(w, file);
      if dev in t.recs then t.recs[dev].pdev.None? else w.recs[dev].files == [file]
  {
    hide NoDup;
    if w.handles[file].dev == dev && Without(w.recs[dev].files, file) == [] {
      OnlyOne(w.recs[dev].files, file);
    }
  }

  // ---------------------------------------------------------------- the driver

  /** The module's memory and the ledger of its calls. Each method is one critical section. */
  class Driver {
    var recs: map<nat, Record>
    var devList: seq<nat>
    var handles: map<nat, Handle>
    var enabled: set<nat>
    var nextRec: nat
    var binds: nat
    ghost var undone: seq<nat>
    ghost var freed: seq<nat>

    ghost function View(): World
      reads this
    {
      World(recs, devList, handles, nextRec, binds, undone, freed, enabled)
    }

    constructor ()
      ensures View() == EMPTY && Inv(View())
    {
      recs, devList, handles, enabled, nextRec, binds, undone, freed := map[], [], map[], {}, 0, 0, [], [];
    }

    /** dfl_pci_sva_open. */
    method Open(dev: nat, file: nat, memory: bool) returns (ret: int)
      requires Inv(View()) && FilesLive(View()) && Possible(View(), Event.Open(dev, file, memory))
      modifies this
      ensures View() == Step(old(View()), Event.Open(dev, file, memory)) && Inv(View())
      ensures ret == if old(recs)[dev].pdev.None? then -EBUSY else if memory then 0 else -ENOMEM
      ensures ret == 0 <==> file in handles
      ensures handles == if ret == 0 then old(handles)[file := Handle(dev, None)] else old(handles)
    {
      hide Inv; hide UndoneAll; hide Without; hide Lookup;
      StepInv(View(), Event.Open(dev, file, memory));
      if recs[dev].pdev.None? {
        return -EBUSY;
      }
      if !memory {
        return -ENOMEM;
      }
      recs := recs[dev := recs[dev].(files := [file] + recs[dev].files)];
      handles := handles[file := Handle(dev, None)];
      ret := 0;
    }

    /** ioctl_sva_bind_dev: the PASID, the same one when the file is already bound. */
    method Bind(file: nat, hasMm: bool, answer: BindAnswer) returns (ret: int)
      requires Inv(View()) && FilesLive(View()) && Possible(View(), Event.Bind(file, hasMm, answer))
      requires answer.Failed? ==> answer.error > 0
      modifies this
      ensures View() == Step(old(View()), Event.Bind(file, hasMm, answer)) && Inv(View())
      ensures ret >= 0 <==> file in handles && handles[file].bound.Some? && recs[handles[file].dev].pdev.Some? && hasMm
      ensures ret >= 0 ==> handles[file].bound.value.pasid == ret
      ensures old(recs[handles[file].dev].pdev.None?) ==> ret == -ENODEV
      ensures old(recs[handles[file].dev].pdev.Some?) && !hasMm ==> ret == -EINVAL
      ensures old(recs[handles[file].dev].pdev.Some?) && hasMm && old(handles)[file].bound.Some? ==>
        ret == old(handles)[file].bound.value.pasid
      ensures old(recs[handles[file].dev].pdev.Some?) && hasMm && old(handles)[file].bound.None? ==>
        match answer
        case NoHandle => ret == -ENODEV
        case Failed(error) => ret == 0 - error as int
        case Bound(pasid) => ret == pasid
      ensures ret < 0 || old(handles[file].bound.Some?) ==> handles == old(handles) && binds == old(binds)
      ensures handles == old(handles)[file := handles[file]] && handles[file].dev == old(handles)[file].dev
    {
      hide Inv; hide UndoneAll; hide Without; hide Lookup;
      StepInv(View(), Event.Bind(file, hasMm, answer));
      var h := handles[file];
      if recs[h.dev].pdev.None? {
        return -ENODEV;
      }
      if !hasMm {
        return -EINVAL;
      }
      if h.bound.Some? {
        return h.bound.value.pasid;
      }
      match answer
      case NoHandle => return -ENODEV;
      case Failed(error) =>
        ret := 0 - (error as int);
      case Bound(pasid) =>
        handles := handles[file := h.(bound := Some(Binding(binds, pasid)))];
        binds := binds + 1;
        return pasid;
    }

    /** iommu_sva_unbind_device on the file's binding, if there is one. */
    method UndoBinding(file: nat)
      requires file in handles
      modifies this`handles, this`undone
      ensures View() == Undone(old(View()), file)
    {
      var h := handles[file];
      if h.bound.Some? {
        undone := undone + [h.bound.value.serial];
        handles := handles[file := h.(bound := None)];
      }
    }

    /** ioctl_sva_unbind_dev. */
    method Unbind(file: nat) returns (ret: int)
      requires Inv(View()) && FilesLive(View()) && Possible(View(), Event.Unbind(file))
      modifies this
      ensures View() == Step(old(View()), Event.Unbind(file)) && Inv(View())
      ensures ret == if old(recs[handles[file].dev].pdev.None?) then -ENODEV else 0
      ensures ret == 0 ==> file in handles && handles[file].bound.None?
      ensures handles == if ret == 0 then old(handles)[file := Handle(old(handles)[file].dev, None)] else old(handles)
    {
      hide Inv; hide UndoneAll; hide Without; hide Lookup;
      StepInv(View(), Event.Unbind(file));
      if recs[handles[file].dev].pdev.None? {
        return -ENODEV;
      }
      UndoBinding(file);
      ret := 0;
    }

    /** dfl_pci_sva_release. The record goes with its last file when its device is already gone. */
    method Release(file: nat)
      requires Inv(View()) && FilesLive(View()) && Possible(View(), Event.Release(file))
      modifies this
      ensures View() == Step(old(View()), Event.Release(file)) && Inv(View())
      ensures file !in handles && handles == old(handles) - {file}
    {
      hide Inv; hide UndoneAll; hide Without; hide Lookup;
      StepInv(View(), Event.Release(file));
      var dev := handles[file].dev;
      UndoBinding(file);
      recs := recs[dev := recs[dev].(files := Without(recs[dev].files, file))];
      handles := handles - {file};
      if recs[dev].pdev.None? && recs[dev].files == [] {
        recs := recs - {dev};
        freed := freed + [dev];
      }
    }

    /** The walk over dfl_dev_list for a device. */
    method Find(pdev: nat) returns (found: Option<nat>)
      ensures found == Lookup(View(), devList, pdev)
    {
      var i := 0;
      while i < |devList|
        invariant 0 <= i <= |devList| && Lookup(View(), devList, pdev) == Lookup(View(), devList[i..], pdev)
      {
        if devList[i] in recs && recs[devList[i]].pdev == Some(pdev) {
          return Some(devList[i]);
        }
        i := i + 1;
      }
      found := None;
    }

    /** dfl_pci_sva_add_dev: at most one record per device, and SVA stays enabled only with a record. */
    method AddDev(pdev: nat, isDfl: bool, enableRet: int, memory: bool)
      requires Inv(View()) && FilesLive(View())
      modifies this
      ensures View() == Step(old(View()), Event.AddDev(pdev, isDfl, enableRet, memory)) && Inv(View())
      ensures pdev in enabled <==> pdev in old(enabled) || (isDfl && enableRet == 0 && memory)
      ensures handles == old(handles) && forall q :: q != pdev ==> (q in enabled <==> q in old(enabled))
    {
      hide Inv; hide UndoneAll; hide Without; hide Lookup;
      StepInv(View(), Event.AddDev(pdev, isDfl, enableRet, memory));
      EnabledIsListed(View(), pdev);
      if !isDfl {
        return;
      }
      var cur := Find(pdev);
      if cur.Some? || enableRet != 0 {
        return;
      }
      enabled := enabled + {pdev};
      if !memory {
        enabled := enabled - {pdev};
        return;
      }
      recs := recs[nextRec := Record(Some(pdev), [])];
      devList := [nextRec] + devList;
      nextRec := nextRec + 1;
    }

    /** The walk of del_dfl_mdev over the open files of a record. */
    method ForceUnbind(files: seq<nat>)
      requires forall f :: f in files ==> f in handles
      modifies this`handles, this`undone
      ensures View() == UndoneAll(old(View()), files)
    {
      var i := 0;
      while i < |files|
        invariant 0 <= i <= |files|
        invariant forall f :: f in files ==> f in handles
        invariant UndoneAll(View(), files[i..]) == UndoneAll(old(View()), files)
      {
        UndoBinding(files[i]);
        i := i + 1;
      }
    }

    /** dfl_pci_sva_del_dev and del_dfl_mdev: unlists the record, undoes the binding of every open file,
        then frees the record unless a file still refers to it. */
    method DelDev(pdev: nat, isDfl: bool)
      requires Inv(View()) && FilesLive(View())
      modifies this
      ensures View() == Step(old(View()), Event.DelDev(pdev, isDfl)) && Inv(View())
      ensures isDfl ==> pdev !in enabled
      ensures handles.Keys == old(handles).Keys && forall q :: q != pdev ==> (q in enabled <==> q in old(enabled))
      ensures forall f :: f in handles && old(recs[handles[f].dev].pdev) != Some(pdev) ==> handles[f] == old(handles)[f]
      ensures isDfl ==>
        forall f :: f in handles && old(recs[handles[f].dev].pdev) == Some(pdev) ==> handles[f].bound.None?
    {
      hide Inv; hide UndoneAll; hide Without; hide Lookup;
      StepInv(View(), Event.DelDev(pdev, isDfl));
      EnabledIsListed(View(), pdev);
      if !isDfl {
        return;
      }
      var found := Find(pdev);
      if found.None? {
        return;
      }
      var dev := found.value;
      ghost var was := View();
      DeletedUnbinds(was, dev);
      DeletedSparesOthers(was, dev);
      OnePerDevice(was, dev);
      ForceUnbind(recs[dev].files);
      devList := Without(devList, dev);
      enabled := enabled - {pdev};
      recs := recs[dev := recs[dev].(pdev := None)];
      if recs[dev].files == [] {
        recs := recs - {dev};
        freed := freed + [dev];
      }
    }
  }

  lemma EnabledIsListed(w: World, pdev: nat)
    requires Inv(w)
    ensures pdev in w.enabled <==> Lookup(w, w.devList, pdev).Some?
    ensures Lookup(w, w.devList, pdev).None? ==>
      forall f :: f in w.handles ==> w.handles[f].dev in w.recs && w.recs[w.handles[f].dev].pdev != Some(pdev)
  {
    if pdev in w.enabled {
      var r :| r in w.recs && w.recs[r].pdev == Some(pdev);
      assert r in w.devList;
    }
    var found := Lookup(w, w.devList, pdev);
    if found.Some? {
      assert Present(w.recs, pdev);
    }
  }

  lemma OnePerDevice(w: World, dev: nat)
    requires Inv(w) && dev in w.recs && w.recs[dev].pdev.Some?
    ensures forall f :: f in w.handles && w.recs[w.handles[f].dev].pdev == w.recs[dev].pdev ==> w.handles[f].dev == dev
  {
  }

  /** The files of other devices keep their bindings. */
  lemma DeletedSparesOthers(w: World, dev: nat)
    requires Inv(w) && dev in w.recs && w.recs[dev].pdev.Some?
    requires forall f :: f in w.recs[dev].files ==> f in w.handles
    ensures var t := Deleted(w, dev);
      forall f :: f in w.handles && w.recs[w.handles[f].dev].pdev != w.recs[dev].pdev ==> t.handles[f] == w.handles[f]
  {
    UndoneAllInv(w, w.recs[dev].files);
  }

  /** Removal leaves no file of the device bound. */
  lemma DeletedUnbinds(w: World, dev: nat)
    requires Inv(w) && dev in w.recs && w.recs[dev].pdev.Some?
    requires forall f :: f in w.recs[dev].files ==> f in w.handles
    ensures var t := Deleted(w, dev);
      forall f :: f in w.handles && w.handles[f].dev == dev ==> f in t.handles && t.handles[f] == Handle(dev, None)
  {
    UndoneAllInv(w, w.recs[dev].files);
  }
}
