/** Device feature list enumeration of drivers/fpga/dfl.c: a linked list of headers in device memory is
    walked, the window is re-based at every FIU, and each FIU's features become one feature device. */
module DflEnum {
  import opened Common
  import Params = DflParams

  datatype Result<+T> = Ok(value: T) | Err(code: int)

  type Mem = Params.Mem

  const EINVAL: int := 22
  const ENOENT: int := 2
  const U64: int := 0x1_0000_0000_0000_0000

  const TYPE_AFU: nat := 1
  const TYPE_PRIVATE: nat := 3
  const TYPE_FIU: nat := 4
  const TYPE_INTERFACE: nat := 5
  const FEATURE_ID_FIU_HEADER: nat := 0xfe
  const FEATURE_ID_AFU: nat := 0xff
  const DFH_SIZE: nat := 8

  datatype DflId = FME_ID | PORT_ID | PRIV_FEAT_ID | DFL_ID_MAX

  // ---------------------------------------------------------------- header fields

  function Id(v: nat): nat { v % 0x1000 }
  function Revision(v: nat): nat { v / 0x1000 % 16 }
  function NextHdr(v: nat): nat { v / 0x1_0000 % 0x100_0000 }
  predicate Eol(v: nat) { v / 0x100_0000_0000 % 2 == 1 }
  function Version(v: nat): nat { v / 0x10_0000_0000_0000 % 256 }
  function HdrType(v: nat): nat { v / 0x1000_0000_0000_0000 % 16 }
  function NextAfu(v: nat): nat { v % 0x100_0000 }
  function PortMmioSize(v: nat): nat { v / 0x100 % 0x1_0000 * 1024 }
  function CsrSize(v: nat): nat { v / 0x1_0000_0000 % 0x1_0000_0000 }
  predicate CsrAbsolute(v: nat) { v % 2 == 1 }
  function CsrOffset(v: nat): nat { v / 2 * 2 }

  function FeatureId(v: nat): nat {
    var t := HdrType(v);
    if t == TYPE_FIU then FEATURE_ID_FIU_HEADER
    else if t == TYPE_PRIVATE then Id(v)
    else if t == TYPE_AFU then FEATURE_ID_AFU
    else 0
  }

  function IdToType(id: nat): DflId {
    if id == 0 then FME_ID else if id == 1 then PORT_ID else if id == 2 then PRIV_FEAT_ID else DFL_ID_MAX
  }

  /** The device: its memory, and the interrupt vectors parsed for a feature (none if refused). */
  datatype Device = Device(mem: Mem, irqs: (DflId, int, nat) -> Option<(nat, nat)>)

  /** A sub feature found on the walk. `at` is the list header it was found at; an AFU reached through
      an FIU's NEXT_AFU register counts as found at that FIU. */
  datatype Feature = Feature(at: int, fid: nat, revision: nat, version: nat, absolute: bool,
                             resStart: int, resEnd: int, params: seq<nat>, irqs: (nat, nat))

  /** The features committed for one FIU whose window starts at `start`. */
  datatype Group = Group(typ: DflId, start: int, features: seq<Feature>)

  /** What the walk has built so far. */
  datatype Build = Build(typ: DflId, start: int, len: int, sub: seq<Feature>, num: nat, groups: seq<Group>)

  // ---------------------------------------------------------------- one feature

  /** Interface headers lead on, so that the size of a feature can be found. */
  ghost predicate InterfacesAdvance(mem: Mem, lo: int, end: int) {
    forall a :: lo <= a < end && HdrType(mem(a)) == TYPE_INTERFACE ==> NextHdr(mem(a)) > 0
  }

  /** Distance from a header to the next one that is not an interface, or 0 when the list runs out. */
  function SizeFrom(mem: Mem, dfh: int, end: int, ofst: nat): nat
    requires InterfacesAdvance(mem, dfh, end)
    decreases if dfh + ofst < end then end - dfh - ofst else 0
  {
    var v := mem(dfh + ofst);
    if HdrType(v) != TYPE_INTERFACE then ofst
    else if Eol(v) then ofst + NextHdr(v)
    else if dfh + ofst < end && dfh + ofst + NextHdr(v) < end then SizeFrom(mem, dfh, end, ofst + NextHdr(v))
    else 0
  }

  function FeatureSize(mem: Mem, dfh: int, end: int, v: nat): nat
    requires InterfacesAdvance(mem, dfh, end)
  {
    if NextHdr(v) == 0 then 4096
    else if Eol(v) then NextHdr(v)
    else SizeFrom(mem, dfh, end, NextHdr(v))
  }

  /** The headers passed on the way from a header to the end of its feature: interfaces inside the list,
      each leading on to the next, and none of them the last of the list except perhaps the last passed. */
  ghost predicate Hops(mem: Mem, dfh: int, end: int, hops: seq<nat>) {
    hops != [] && forall i :: 0 < i < |hops| ==> Hop(mem, dfh, end, hops[i - 1], hops[i])
  }

  predicate Hop(mem: Mem, dfh: int, end: int, here: nat, next: nat) {
    var v := mem(dfh + here);
    HdrType(v) == TYPE_INTERFACE && !Eol(v) && next == here + NextHdr(v) && dfh + next < end
  }

  /** What a size is: 4096 without a next offset, the next offset at the end of the list, and otherwise the
      distance to the first header after it that is not an interface; interfaces belong to the feature
      before them. A list that ends with an interface ends the feature too; one that runs out makes it 0. */
  lemma SizeMeans(mem: Mem, dfh: int, end: int, v: nat) returns (hops: seq<nat>)
    requires InterfacesAdvance(mem, dfh, end)
    ensures NextHdr(v) == 0 ==> FeatureSize(mem, dfh, end, v) == 4096
    ensures NextHdr(v) > 0 && Eol(v) ==> FeatureSize(mem, dfh, end, v) == NextHdr(v)
    ensures NextHdr(v) > 0 && !Eol(v) ==> Hops(mem, dfh, end, hops) && hops[0] == NextHdr(v)
    ensures NextHdr(v) > 0 && !Eol(v) ==> var last := hops[|hops| - 1]; var w := mem(dfh + last);
      if HdrType(w) != TYPE_INTERFACE then FeatureSize(mem, dfh, end, v) == last
      else if Eol(w) then FeatureSize(mem, dfh, end, v) == last + NextHdr(w)
      else FeatureSize(mem, dfh, end, v) == 0 && dfh + last + NextHdr(w) >= end
  {
    hide HdrType; hide Eol; hide NextHdr;
    hops := [0];
    if NextHdr(v) > 0 && !Eol(v) {
      hops := HopsFrom(mem, dfh, end, NextHdr(v));
    }
  }

  lemma {:induction false} HopsFrom(mem: Mem, dfh: int, end: int, ofst: nat) returns (hops: seq<nat>)
    requires InterfacesAdvance(mem, dfh, end)
    ensures Hops(mem, dfh, end, hops) && hops[0] == ofst
    ensures var last := hops[|hops| - 1]; var w := mem(dfh + last);
      if HdrType(w) != TYPE_INTERFACE then SizeFrom(mem, dfh, end, ofst) == last
      else if Eol(w) then SizeFrom(mem, dfh, end, ofst) == last + NextHdr(w)
      else SizeFrom(mem, dfh, end, ofst) == 0 && dfh + last + NextHdr(w) >= end
    decreases if dfh + ofst < end then end - dfh - ofst else 0
  {
    hide HdrType; hide Eol; hide NextHdr;
    var v := mem(dfh + ofst);
    hops := [ofst];
    if HdrType(v) == TYPE_INTERFACE && !Eol(v) && dfh + ofst < end && dfh + ofst + NextHdr(v) < end {
      var rest := HopsFrom(mem, dfh, end, ofst + NextHdr(v));
      HopsCons(mem, dfh, end, ofst, rest);
      hide Hops; hide InterfacesAdvance;
      hops := [ofst] + rest;
      assert SizeFrom(mem, dfh, end, ofst) == SizeFrom(mem, dfh, end, ofst + NextHdr(v));
      assert hops[|hops| - 1] == rest[|rest| - 1];
    }
  }

  lemma HopsCons(mem: Mem, dfh: int, end: int, ofst: nat, rest: seq<nat>)
    requires Hops(mem, dfh, end, rest) && Hop(mem, dfh, end, ofst, rest[0])
    ensures Hops(mem, dfh, end, [ofst] + rest)
  {
    hide Hop;
    var hops := [ofst] + rest;
    forall i | 0 < i < |hops|
      ensures Hop(mem, dfh, end, hops[i - 1], hops[i])
    {
      if i > 1 { assert Hop(mem, dfh, end, rest[i - 2], rest[i - 1]); }
    }
  }

  /** The loop of feature_size. */
  method ReadFeatureSize(mem: Mem, dfh: int, end: int, v: nat) returns (size: nat)
    requires InterfacesAdvance(mem, dfh, end)
    ensures size == FeatureSize(mem, dfh, end, v)
  {
    hide HdrType;
    hide Eol;
    var ofst: nat := NextHdr(v);
    if ofst == 0 {
      return 4096;
    }
    if Eol(v) {
      return ofst;
    }
    var value, first := v, true;
    while first || dfh + ofst < end
      invariant first || dfh + ofst < end ==> FeatureSize(mem, dfh, end, v) == SizeFrom(mem, dfh, end, ofst)
      invariant !first && dfh + ofst >= end ==> FeatureSize(mem, dfh, end, v) == 0
      decreases first, end - dfh - ofst
    {
      value := mem(dfh + ofst);
      if HdrType(value) != TYPE_INTERFACE {
        return ofst;
      }
      ofst := ofst + NextHdr(value);
      if Eol(value) {
        return ofst;
      }
      first := false;
    }
    size := 0;
  }

  /** Unsigned 64-bit difference. */
  function Sub64(a: int, b: int): int {
    (a - b) % U64
  }

  predicate InRange(x: int, start: int, len: int) { start <= x < start + len }

  /** Start, end and addressing of the CSR region of a version 1 header. */
  function CsrRegion(mem: Mem, start: int, ofst: nat): (r: (int, int, bool)) {
    var v := mem(start + ofst + 0x18);
    var s := if CsrAbsolute(v) then CsrOffset(v) else (start + ofst + CsrOffset(v)) % U64;
    var size := CsrSize(mem(start + ofst + 0x20));
    (s, if size > 0 then (s + size - 1) % U64 else s, CsrAbsolute(v))
  }

  /** Outcome of create_feature_instance: a feature, a header ignored because its registers lie outside
      the window, or an error. */
  datatype Created = Made(f: Feature) | Ignored | Failed(code: int)

  /** Size of a header's parameter block in bytes, negative on error; only version 1 has one. */
  function ParamSize(mem: Mem, dfh: int, size: nat, version: nat): int {
    if version != 1 || !Params.HasParams(mem(dfh + Params.CSR_SIZE_GRP)) then 0
    else
      var chain := Params.Chain(mem, dfh + Params.PARAM_HDR, 0, size);
      if chain.None? then -ENOENT
      else 8 * Params.BlockWords(mem, dfh + Params.PARAM_HDR, chain.value)
  }

  /** A header that has passed the size check, turned into a feature of the window. */
  function Place(d: Device, b: Build, at: int, ofst: nat, size: nat, fid: nat, revision: nat, version: nat, psize: nat)
    : Created
  {
    var csr := CsrRegion(d.mem, b.start, ofst);
    if version == 1 && !csr.2 && !(InRange(csr.0, b.start, b.len) && InRange(csr.1, b.start, b.len)) then Ignored
    else
      var irqs := d.irqs(b.typ, b.start + ofst, fid);
      if irqs.None? then Failed(-EINVAL)
      else Made(Feature(at, fid, revision, version, version == 1 && csr.2,
        if version == 1 then csr.0 else b.start + ofst,
        if version == 1 then csr.1 else b.start + ofst + size - 1,
        Params.Block(d.mem, b.start + ofst + Params.PARAM_HDR, psize / 8), irqs.value))
  }

  function Create(d: Device, b: Build, at: int, ofst: nat, size: nat, fid: nat): Created
    requires InterfacesAdvance(d.mem, b.start, b.start + b.len)
  {
    var dfh := b.start + ofst;
    var v := d.mem(dfh);
    if fid == FEATURE_ID_AFU then
      if Sub64(b.len, ofst) < size then Failed(-EINVAL) else Place(d, b, at, ofst, size, fid, 0, 0, 0)
    else
      var sz := if size > 0 then size else FeatureSize(d.mem, dfh, b.start + b.len, v);
      var psize := ParamSize(d.mem, dfh, sz, Version(v));
      if sz == 0 then Failed(-EINVAL)
      else if psize < 0 then Failed(psize)
      else if Sub64(b.len, ofst) < sz then Failed(-EINVAL)
      else Place(d, b, at, ofst, sz, if fid > 0 then fid else FeatureId(v), Revision(v), Version(v), psize)
  }

  function Add(b: Build, c: Created): (r: Result<Build>)
    ensures r.Ok? ==> r.value.start == b.start && r.value.len == b.len && r.value.typ == b.typ
  {
    match c
    case Made(f) => Ok(b.(sub := b.sub + [f], num := b.num + 1))
    case Ignored => Ok(b)
    case Failed(code) => Err(code)
  }

  // ---------------------------------------------------------------- one header

  function ParseAfu(d: Device, b: Build, at: int, ofst: nat): (r: Result<Build>)
    requires InterfacesAdvance(d.mem, b.start, b.start + b.len)
    ensures r.Ok? ==> r.value.start == b.start && r.value.len == b.len && r.value.typ == b.typ
  {
    if b.typ == DFL_ID_MAX then Err(-EINVAL)
    else if b.typ == PORT_ID then Add(b, Create(d, b, at, ofst, PortMmioSize(d.mem(b.start + 0x30)), FEATURE_ID_AFU))
    else Ok(b)
  }

  /** The FIU before this one is committed and the window moves on to this one. */
  function Rebase(b: Build, ofst: nat): Build {
    if b.typ == DFL_ID_MAX then b
    else b.(start := b.start + ofst, len := b.len - ofst, sub := [], typ := DFL_ID_MAX,
            groups := b.groups + [Group(b.typ, b.start, b.sub)])
  }

  function ParseFiu(d: Device, b: Build, ofst: nat): (out: Result<Build>)
    requires ofst <= b.len && InterfacesAdvance(d.mem, b.start, b.start + b.len)
    ensures out.Ok? ==> WindowKept(b, out.value, ofst)
  {
    var r := Rebase(b, ofst);
    assert InterfacesAdvance(d.mem, r.start, r.start + r.len);
    var typ := IdToType(Id(d.mem(r.start)));
    if typ == DFL_ID_MAX then Err(-EINVAL)
    else
      var empty := r.(typ := typ, num := 0, sub := []);
      var header := Add(empty, Create(d, empty, r.start, 0, 0, 0));
      var afu := NextAfu(d.mem(r.start + 0x18));
      if header.Err? || afu == 0 then header else ParseAfu(d, header.value, r.start, afu)
  }

  function ParsePrivate(d: Device, b: Build, ofst: nat): Result<Build>
    requires InterfacesAdvance(d.mem, b.start, b.start + b.len)
  {
    var version := Version(d.mem(b.start));
    if version == 0 && b.typ == DFL_ID_MAX then Err(-EINVAL)
    else
      var b' := if version == 1 then b.(typ := PRIV_FEAT_ID) else b;
      Add(b', Create(d, b', b.start + ofst, ofst, 0, 0))
  }

  /** The window still ends where it did, and starts no later than the header just parsed. */
  predicate WindowKept(b: Build, b': Build, ofst: nat) {
    b'.start + b'.len == b.start + b.len && b.start <= b'.start <= b.start + ofst
  }

  function ParseHeader(d: Device, b: Build, ofst: nat): (out: Result<Build>)
    requires ofst <= b.len && InterfacesAdvance(d.mem, b.start, b.start + b.len)
    ensures out.Ok? ==> WindowKept(b, out.value, ofst)
  {
    var t := HdrType(d.mem(b.start + ofst));
    if t == TYPE_AFU then ParseAfu(d, b, b.start + ofst, ofst)
    else if t == TYPE_PRIVATE then ParsePrivate(d, b, ofst)
    else if t == TYPE_FIU then ParseFiu(d, b, ofst)
    else Ok(b)
  }

  // ---------------------------------------------------------------- the walk

  function Walk(d: Device, b: Build, addr: int, end: int): (out: Result<Build>)
    requires b.start + b.len == end && b.start <= addr && InterfacesAdvance(d.mem, b.start, end)
    ensures out.Ok? ==> out.value.start + out.value.len == end && b.start <= out.value.start
    decreases end - addr
  {
    if addr >= end then Ok(b)
    else if end - addr < DFH_SIZE then Err(-EINVAL)
    else
      var r := ParseHeader(d, b, addr - b.start);
      var v := d.mem(addr);
      if r.Err? || Eol(v) || NextHdr(v) == 0 then r else Walk(d, r.value, addr + NextHdr(v), end)
  }

  function Finish(b: Build): seq<Group> {
    if b.typ == DFL_ID_MAX then b.groups else b.groups + [Group(b.typ, b.start, b.sub)]
  }

  /** One device feature list: the groups committed, in order, when no kernel call fails. */
  function Enumerate(d: Device, start: int, len: nat, num: nat): Result<seq<Group>>
    requires InterfacesAdvance(d.mem, start, start + len)
  {
    var r := Walk(d, Build(DFL_ID_MAX, start, len, [], num, []), start, start + len);
    if r.Err? then Err(r.code) else Ok(Finish(r.value))
  }

  // ---------------------------------------------------------------- what the walk keeps

  predicate Inside(f: Feature, lo: int, end: int) {
    f.absolute || (lo <= f.resStart && f.resEnd < end)
  }

  /** Features found at headers from lo up to (not including) hi, in walking order. */
  ghost predicate FoundIn(fs: seq<Feature>, lo: int, hi: int) {
    (forall i :: 0 <= i < |fs| ==> lo <= fs[i].at < hi) && (forall i, j :: 0 <= i < j < |fs| ==> fs[i].at <= fs[j].at)
  }

  /** Start of the window that follows group k. */
  function NextStart(groups: seq<Group>, k: nat, last: int): int {
    if k + 1 < |groups| then groups[k + 1].start else last
  }

  /** Groups with ascending windows, each holding only features found inside its own window. */
  ghost predicate Grouped(groups: seq<Group>, lo: int, last: int, end: int) {
    forall k :: 0 <= k < |groups| ==>
      lo <= groups[k].start < NextStart(groups, k, last) && groups[k].typ != DFL_ID_MAX &&
      FoundIn(groups[k].features, groups[k].start, NextStart(groups, k, last)) &&
      (forall f :: f in groups[k].features ==> Inside(f, lo, end))
  }

  ghost predicate Sound(b: Build, lo: int, end: int, addr: int) {
    lo <= b.start && b.len >= 0 && b.start + b.len == end && Grouped(b.groups, lo, b.start, end) &&
    (if b.typ == DFL_ID_MAX then b.sub == [] && b.groups == [] && b.start == addr == lo
     else (b.start < addr && |b.sub| == b.num && FoundIn(b.sub, b.start, addr) &&
           (forall f :: f in b.sub ==> Inside(f, lo, end))))
  }

  /** The AFU each FIU points to lies inside the list. */
  ghost predicate AfusInside(mem: Mem, lo: int, end: int) {
    forall a :: lo <= a < end && HdrType(mem(a)) == TYPE_FIU ==> a + NextAfu(mem(a + 0x18)) <= end
  }

  /** A well-formed list: addresses are 64-bit, it begins with an FIU, interfaces lead on, and AFU
      pointers stay inside. */
  ghost predicate WellFormed(mem: Mem, lo: int, end: int) {
    0 <= lo <= end <= U64 && InterfacesAdvance(mem, lo, end) && AfusInside(mem, lo, end) &&
    (lo < end ==> HdrType(mem(lo)) == TYPE_FIU)
  }

  lemma CreateInside(d: Device, b: Build, at: int, ofst: nat, size: nat, fid: nat)
    requires InterfacesAdvance(d.mem, b.start, b.start + b.len)
    requires 0 <= b.start && ofst <= b.len && b.start + b.len <= U64
    ensures var c := Create(d, b, at, ofst, size, fid);
      c.Made? ==> c.f.at == at && Inside(c.f, b.start, b.start + b.len)
  {
    assert Sub64(b.len, ofst) == b.len - ofst || (ofst == 0 && b.len == U64);
  }

  /** Appending a feature found at `at`. */
  lemma AddSound(b: Build, c: Created, at: int, lo: int, end: int, addr: int)
    requires b.typ != DFL_ID_MAX && lo <= b.start <= at < addr && b.len >= 0 && b.start + b.len == end
    requires Grouped(b.groups, lo, b.start, end) && |b.sub| == b.num && FoundIn(b.sub, b.start, at + 1)
    requires forall f :: f in b.sub ==> Inside(f, lo, end)
    requires c.Made? ==> c.f.at == at && Inside(c.f, lo, end)
    ensures Add(b, c).Ok? ==> Sound(Add(b, c).value, lo, end, addr) && FoundIn(Add(b, c).value.sub, b.start, at + 1)
  {
  }

  lemma RebaseSound(b: Build, lo: int, end: int, addr: int)
    requires Sound(b, lo, end, addr) && addr < end
    ensures var r := Rebase(b, addr - b.start);
      r.start == addr && r.start + r.len == end && r.typ == DFL_ID_MAX && r.sub == [] &&
      Grouped(r.groups, lo, addr, end)
  {
    var r := Rebase(b, addr - b.start);
    if b.typ != DFL_ID_MAX {
      GroupedPush(b.groups, Group(b.typ, b.start, b.sub), lo, b.start, addr, end);
    }
  }

  lemma GroupedPush(groups: seq<Group>, g: Group, lo: int, last: int, last': int, end: int)
    requires Grouped(groups, lo, last, end) && g.start == last && lo <= last < last' && g.typ != DFL_ID_MAX
    requires FoundIn(g.features, last, last') && forall f :: f in g.features ==> Inside(f, lo, end)
    ensures Grouped(groups + [g], lo, last', end)
  {
    var all := groups + [g];
    forall k | 0 <= k < |all|
      ensures lo <= all[k].start < NextStart(all, k, last') && all[k].typ != DFL_ID_MAX &&
        FoundIn(all[k].features, all[k].start, NextStart(all, k, last')) &&
        (forall f :: f in all[k].features ==> Inside(f, lo, end))
    {
      if k < |groups| {
        assert all[k] == groups[k];
        assert NextStart(all, k, last') == NextStart(groups, k, last);
      }
    }
  }

  lemma CreatedSound(d: Device, b: Build, at: int, ofst: nat, size: nat, fid: nat, lo: int, end: int, addr: int)
    requires WellFormed(d.mem, lo, end) && ofst <= b.len
    requires b.typ != DFL_ID_MAX && lo <= b.start <= at < addr <= end && b.start + b.len == end
    requires Grouped(b.groups, lo, b.start, end) && |b.sub| == b.num && FoundIn(b.sub, b.start, at + 1)
    requires forall f :: f in b.sub ==> Inside(f, lo, end)
    ensures var r := Add(b, Create(d, b, at, ofst, size, fid));
      r.Ok? ==> Sound(r.value, lo, end, addr) && FoundIn(r.value.sub, b.start, at + 1)
  {
    hide Create;
    hide Grouped;
    CreateInside(d, b, at, ofst, size, fid);
    AddSound(b, Create(d, b, at, ofst, size, fid), at, lo, end, addr);
  }

  /** One header keeps everything, wherever the window starts. */
  lemma FeatureSound(d: Device, b: Build, lo: int, end: int, addr: int, next: int)
    requires WellFormed(d.mem, lo, end) && Sound(b, lo, end, addr) && addr < next <= end
    ensures var r := ParseHeader(d, b, addr - b.start);
      r.Ok? ==> Sound(r.value, lo, end, next) && r.value.typ != DFL_ID_MAX
  {
    hide HdrType;
    hide Version;
    hide Create;
    hide Grouped;
    hide PortMmioSize;
    hide ParseFiu;
    var t := HdrType(d.mem(addr));
    var ofst := addr - b.start;
    if t == TYPE_FIU {
      FiuSound(d, b, lo, end, addr, next);
    } else if t == TYPE_PRIVATE {
      var b' := if Version(d.mem(b.start)) == 1 then b.(typ := PRIV_FEAT_ID) else b;
      if b'.typ != DFL_ID_MAX { CreatedSound(d, b', addr, ofst, 0, 0, lo, end, next); }
    } else if t == TYPE_AFU {
      if b.typ == PORT_ID {
        CreatedSound(d, b, addr, ofst, PortMmioSize(d.mem(b.start + 0x30)), FEATURE_ID_AFU, lo, end, next);
      }
    }
  }

  lemma FoundNone(a: int)
    ensures FoundIn([], a, a + 1)
  {
  }

  lemma FiuSound(d: Device, b: Build, lo: int, end: int, addr: int, next: int)
    requires WellFormed(d.mem, lo, end) && Sound(b, lo, end, addr) && addr < next <= end
    requires HdrType(d.mem(addr)) == TYPE_FIU
    ensures var r := ParseFiu(d, b, addr - b.start);
      r.Ok? ==> Sound(r.value, lo, end, next) && r.value.typ != DFL_ID_MAX
  {
    hide Create;
    hide Grouped;
    hide Rebase;
    hide FoundIn;
    hide Inside;
    hide NextHdr;
    hide PortMmioSize;
    hide IdToType;
    hide NextAfu;
    hide HdrType;
    RebaseSound(b, lo, end, addr);
    FoundNone(addr);
    var r := Rebase(b, addr - b.start);
    var typ := IdToType(Id(d.mem(r.start)));
    if typ != DFL_ID_MAX {
      var empty := r.(typ := typ, num := 0, sub := []);
      CreatedSound(d, empty, addr, 0, 0, 0, lo, end, next);
      var header := Add(empty, Create(d, empty, addr, 0, 0, 0));
      var afu := NextAfu(d.mem(addr + 0x18));
      assert addr + afu <= end;
      if header.Ok? && afu != 0 && typ == PORT_ID {
        CreatedSound(d, header.value, addr, afu, PortMmioSize(d.mem(addr + 0x30)), FEATURE_ID_AFU, lo, end, next);
      }
    }
  }

  /** The walk ends, and what it commits is grouped window by window inside the list. */
  lemma {:induction false} WalkSound(d: Device, b: Build, lo: int, end: int, addr: int)
    requires WellFormed(d.mem, lo, end) && Sound(b, lo, end, Min(addr, end)) && b.start <= addr
    requires addr >= end ==> b.typ != DFL_ID_MAX
    ensures var r := Walk(d, b, addr, end);
      r.Ok? ==> Sound(r.value, lo, end, end) && r.value.typ != DFL_ID_MAX
    decreases end - addr
  {
    hide ParseHeader;
    hide NextHdr;
    hide Eol;
    hide Grouped;
    hide FoundIn;
    hide Inside;
    hide AfusInside;
    hide HdrType;
    if end - addr >= DFH_SIZE {
      FeatureSound(d, b, lo, end, addr, end);
      var r, v := ParseHeader(d, b, addr - b.start), d.mem(addr);
      if r.Ok? && !Eol(v) && NextHdr(v) != 0 {
        FeatureSound(d, b, lo, end, addr, Min(addr + NextHdr(v), end));
        WalkSound(d, r.value, lo, end, addr + NextHdr(v));
      }
    }
  }

  /** Enumerating a well-formed list: every committed feature device holds only its own FIU's features,
      in walking order, windows ascend without overlap, and every feature whose CSR address is not
      absolute lies inside the list. */
  lemma EnumerateSound(d: Device, start: int, len: nat, num: nat)
    requires len > 0 && WellFormed(d.mem, start, start + len)
    ensures var r := Enumerate(d, start, len, num);
      r.Ok? ==> r.value != [] && r.value[0].start == start && Grouped(r.value, start, start + len, start + len)
  {
    hide Walk;
    hide FoundIn;
    hide Inside;
    hide HdrType;
    hide NextAfu;
    hide NextHdr;
    hide Grouped;
    var b, end := Build(DFL_ID_MAX, start, len, [], num, []), start + len;
    GroupedNone(start, end);
    WalkSound(d, b, start, end, start);
    WalkFirst(d, b, start, end);
    var r := Walk(d, b, start, end);
    if r.Ok? {
      GroupedPush(r.value.groups, Group(r.value.typ, r.value.start, r.value.sub), start, r.value.start, end, end);
    }
  }

  lemma GroupedNone(lo: int, end: int)
    ensures Grouped([], lo, lo, end)
  {
  }

  lemma FeatureFirst(d: Device, b: Build, ofst: nat)
    requires ofst <= b.len && InterfacesAdvance(d.mem, b.start, b.start + b.len)
    ensures var r := ParseHeader(d, b, ofst); r.Ok? ==> FirstStart(r.value) == FirstStart(b)
  {
    hide Create;
    hide HdrType;
    hide Version;
    hide IdToType;
    hide NextAfu;
    hide PortMmioSize;
    hide InterfacesAdvance;
  }

  /** The first window is the list itself. */
  lemma {:induction false} WalkFirst(d: Device, b: Build, addr: int, end: int)
    requires b.start + b.len == end && b.start <= addr && InterfacesAdvance(d.mem, b.start, end)
    ensures var r := Walk(d, b, addr, end); r.Ok? ==> FirstStart(r.value) == FirstStart(b)
    decreases end - addr
  {
    hide ParseHeader;
    hide FirstStart;
    hide NextHdr;
    hide Eol;
    hide HdrType;
    if end - addr >= DFH_SIZE {
      FeatureFirst(d, b, addr - b.start);
      var r, v := ParseHeader(d, b, addr - b.start), d.mem(addr);
      if r.Ok? && !Eol(v) && NextHdr(v) != 0 {
        WalkFirst(d, r.value, addr + NextHdr(v), end);
      }
    }
  }

  function FirstStart(b: Build): int {
    if b.groups != [] then b.groups[0].start else b.start
  }

  // ---------------------------------------------------------------- nothing on the list is passed over

  /** A feature that describes header a: found there, with its identifier, revision and version. */
  predicate Describing(mem: Mem, f: Feature, a: int) {
    f.at == a && f.fid == FeatureId(mem(a)) && f.revision == Revision(mem(a)) && f.version == Version(mem(a))
  }

  /** Header a has become a feature. */
  ghost predicate Has(mem: Mem, b: Build, a: int) {
    (exists i :: 0 <= i < |b.sub| && Describing(mem, b.sub[i], a)) || HasGroup(mem, b.groups, a)
  }

  ghost predicate HasGroup(mem: Mem, groups: seq<Group>, a: int) {
    exists k, i :: 0 <= k < |groups| && 0 <= i < |groups[k].features| && Describing(mem, groups[k].features[i], a)
  }

  /** The headers the walk visits: each one NEXT_HDR bytes after the one before, up to end of list. */
  function Visited(mem: Mem, addr: int, end: int): seq<int>
    decreases end - addr
  {
    if end - addr < DFH_SIZE then []
    else if Eol(mem(addr)) || NextHdr(mem(addr)) == 0 then [addr]
    else [addr] + Visited(mem, addr + NextHdr(mem(addr)), end)
  }

  /** An interface or private header whose registers are where the walk accepts them: behind the header, at
      an absolute address, or at an offset that stays inside the list. */
  predicate MustLand(mem: Mem, a: int, end: int) {
    (HdrType(mem(a)) == TYPE_FIU || HdrType(mem(a)) == TYPE_PRIVATE) && RegistersInside(mem, a, end)
  }

  predicate RegistersInside(mem: Mem, a: int, end: int) {
    Version(mem(a)) != 1 || CsrAbsolute(mem(a + 0x18)) ||
    a + CsrOffset(mem(a + 0x18)) + (if CsrSize(mem(a + 0x20)) > 0 then CsrSize(mem(a + 0x20)) else 1) <= end
  }

  lemma AddHas(mem: Mem, b: Build, c: Created, a: int)
    requires Add(b, c).Ok?
    ensures Has(mem, b, a) ==> Has(mem, Add(b, c).value, a)
    ensures c.Made? && Describing(mem, c.f, a) ==> Has(mem, Add(b, c).value, a)
  {
    var b' := Add(b, c).value;
    if exists i :: 0 <= i < |b.sub| && Describing(mem, b.sub[i], a) {
      var i :| 0 <= i < |b.sub| && Describing(mem, b.sub[i], a);
      assert b'.sub[i] == b.sub[i];
    }
    if c.Made? { assert b'.sub[|b.sub|] == c.f; }
  }

  lemma RebaseHas(mem: Mem, b: Build, ofst: nat, a: int)
    requires Has(mem, b, a)
    ensures Has(mem, Rebase(b, ofst), a)
  {
    var r := Rebase(b, ofst);
    if b.typ != DFL_ID_MAX {
      assert r.groups[|b.groups|].features == b.sub;
      if HasGroup(mem, b.groups, a) {
        var k, i :|
          0 <= k < |b.groups| && 0 <= i < |b.groups[k].features| && Describing(mem, b.groups[k].features[i], a);
        assert r.groups[k] == b.groups[k];
      }
    }
  }

  /** Features once found are kept, and a version 0 header of an FIU or a private feature becomes one. */
  lemma FeatureHas(d: Device, b: Build, ofst: nat, a: int)
    requires ofst <= b.len && InterfacesAdvance(d.mem, b.start, b.start + b.len)
    requires 0 <= b.start && b.start + b.len <= U64
    requires b.typ == DFL_ID_MAX ==> b.sub == [] && (HdrType(d.mem(b.start + ofst)) == TYPE_FIU ==> ofst == 0)
    requires ParseHeader(d, b, ofst).Ok?
    ensures Has(d.mem, b, a) ==> Has(d.mem, ParseHeader(d, b, ofst).value, a)
    ensures a == b.start + ofst && MustLand(d.mem, a, b.start + b.len) ==> Has(d.mem, ParseHeader(d, b, ofst).value, a)
  {
    hide RegistersInside;
    hide Create;
    hide HdrType;
    hide Version;
    hide IdToType;
    hide NextAfu;
    hide PortMmioSize;
    hide InterfacesAdvance;
    hide Has;
    var t := HdrType(d.mem(b.start + ofst));
    if t == TYPE_PRIVATE {
      var b' := if Version(d.mem(b.start)) == 1 then b.(typ := PRIV_FEAT_ID) else b;
      if RegistersInside(d.mem, b.start + ofst, b.start + b.len) { Lands(d, b', b.start + ofst, ofst); }
      SameHas(d.mem, b, b', a);
      AddHas(d.mem, b', Create(d, b', b.start + ofst, ofst, 0, 0), a);
    } else if t == TYPE_AFU && b.typ == PORT_ID {
      AddHas(d.mem, b, Create(d, b, b.start + ofst, ofst, PortMmioSize(d.mem(b.start + 0x30)), FEATURE_ID_AFU), a);
    } else if t == TYPE_FIU {
      FiuHas(d, b, ofst, a);
    }
  }

  lemma SameHas(mem: Mem, b: Build, b': Build, a: int)
    requires b.sub == b'.sub && b.groups == b'.groups
    ensures Has(mem, b, a) == Has(mem, b', a)
  {
  }

  /** Such a header, if it is no error, becomes a feature that describes it. */
  lemma Lands(d: Device, b: Build, at: int, ofst: nat)
    requires InterfacesAdvance(d.mem, b.start, b.start + b.len)
    requires 0 <= b.start && b.start + b.len <= U64 && ofst <= b.len
    requires at == b.start + ofst && RegistersInside(d.mem, at, b.start + b.len)
    ensures var c := Create(d, b, at, ofst, 0, 0);
      !c.Ignored? && (c.Made? ==> Describing(d.mem, c.f, at))
  {
    hide Version;
    hide FeatureSize;
    hide ParamSize;
    hide FeatureId;
    hide Revision;
    hide CsrOffset;
    hide CsrSize;
    hide CsrAbsolute;
    hide InterfacesAdvance;
  }

  lemma FiuHas(d: Device, b: Build, ofst: nat, a: int)
    requires ofst <= b.len && InterfacesAdvance(d.mem, b.start, b.start + b.len)
    requires 0 <= b.start && b.start + b.len <= U64
    requires b.typ == DFL_ID_MAX ==> b.sub == [] && ofst == 0
    requires ParseFiu(d, b, ofst).Ok?
    ensures Has(d.mem, b, a) ==> Has(d.mem, ParseFiu(d, b, ofst).value, a)
    ensures a == b.start + ofst && RegistersInside(d.mem, a, b.start + b.len) ==>
      Has(d.mem, ParseFiu(d, b, ofst).value, a)
  {
    hide Create;
    hide Version;
    hide IdToType;
    hide NextAfu;
    hide PortMmioSize;
    hide Has;
    var r := Rebase(b, ofst);
    if Has(d.mem, b, a) { RebaseHas(d.mem, b, ofst, a); }
    var empty := r.(typ := IdToType(Id(d.mem(r.start))), num := 0, sub := []);
    SameHas(d.mem, r, empty, a);
    if RegistersInside(d.mem, r.start, r.start + r.len) { Lands(d, empty, r.start, 0); }
    var c := Create(d, empty, r.start, 0, 0, 0);
    AddHas(d.mem, empty, c, a);
    var header := Add(empty, c).value;
    var afu := NextAfu(d.mem(r.start + 0x18));
    if afu != 0 && header.typ == PORT_ID {
      var size := PortMmioSize(d.mem(header.start + 0x30));
      AddHas(d.mem, header, Create(d, header, r.start, afu, size, FEATURE_ID_AFU), a);
    }
  }

  /** What has been found is kept to the end, and every interface or private header visited whose registers
      are in place ends up in a committed device as the feature it describes: none is passed over. */
  lemma {:induction false} WalkHas(d: Device, b: Build, lo: int, end: int, addr: int, a: int)
    requires WellFormed(d.mem, lo, end) && Sound(b, lo, end, Min(addr, end)) && b.start <= addr
    requires Walk(d, b, addr, end).Ok? && (addr >= end ==> b.typ != DFL_ID_MAX)
    ensures Has(d.mem, b, a) ==> Has(d.mem, Walk(d, b, addr, end).value, a)
    ensures a in Visited(d.mem, addr, end) && MustLand(d.mem, a, end) ==> Has(d.mem, Walk(d, b, addr, end).value, a)
    decreases end - addr
  {
    hide ParseHeader;
    hide NextHdr;
    hide Eol;
    hide Grouped;
    hide FoundIn;
    hide Inside;
    hide AfusInside;
    hide HdrType;
    hide Version;
    hide Has;
    if end - addr >= DFH_SIZE {
      FeatureSound(d, b, lo, end, addr, end);
      FeatureHas(d, b, addr - b.start, a);
      var r, v := ParseHeader(d, b, addr - b.start), d.mem(addr);
      if r.Ok? && !Eol(v) && NextHdr(v) != 0 {
        FeatureSound(d, b, lo, end, addr, Min(addr + NextHdr(v), end));
        WalkHas(d, r.value, lo, end, addr + NextHdr(v), a);
      }
    }
  }

  /** The same for a whole list enumerated with success. */
  lemma NothingPassedOver(d: Device, start: int, len: nat, num: nat)
    requires len > 0 && WellFormed(d.mem, start, start + len)
    ensures var groups := Enumerate(d, start, len, num);
      groups.Ok? ==> forall a :: a in Visited(d.mem, start, start + len) && MustLand(d.mem, a, start + len) ==>
        HasGroup(d.mem, groups.value, a)
  {
    hide Walk; hide Visited; hide FoundIn; hide Inside; hide HdrType; hide NextAfu; hide NextHdr; hide Version;
    hide Grouped; hide HasGroup; hide MustLand;
    if Enumerate(d, start, len, num).Ok? {
      var b, end := Build(DFL_ID_MAX, start, len, [], num, []), start + len;
      var w := Walk(d, b, start, end).value;
      GroupedNone(start, end);
      WalkSound(d, b, start, end, start);
      assert Rebase(w, 0).groups == Finish(w);
      forall a | a in Visited(d.mem, start, end) && MustLand(d.mem, a, end)
        ensures HasGroup(d.mem, Finish(w), a)
      {
        WalkHas(d, b, start, end, start, a);
        RebaseHas(d.mem, w, 0, a);
      }
    }
  }

  // ---------------------------------------------------------------- what a list stands for

  /** The type of a window, from its headers so far: by the identifier of its FIU, and a private feature
      device once a private header has followed an FIU of version 1. */
  ghost function TypeOf(mem: Mem, headers: seq<int>): DflId
    requires headers != []
  {
    var v := mem(headers[0]);
    if Version(v) == 1 && HasPrivate(mem, headers) then PRIV_FEAT_ID
    else if v % 0x1000 == 0 then FME_ID
    else if v % 0x1000 == 1 then PORT_ID
    else if v % 0x1000 == 2 then PRIV_FEAT_ID
    else DFL_ID_MAX
  }

  ghost predicate HasPrivate(mem: Mem, headers: seq<int>) {
    exists i :: 0 <= i < |headers| && HdrType(mem(headers[i])) == TYPE_PRIVATE
  }

  function Last(headers: seq<int>): int
    requires headers != []
  {
    headers[|headers| - 1]
  }

  /** The registers a version 1 header points to: absolute, or relative to the header, in 64-bit arithmetic. */
  function CsrStart(mem: Mem, a: int): int {
    var v := mem(a + 0x18);
    if v % 2 == 1 then v - 1 else (a + v) % U64
  }

  function CsrEnd(mem: Mem, a: int): int {
    var size := mem(a + 0x20) / 0x1_0000_0000 % 0x1_0000_0000;
    if size == 0 then CsrStart(mem, a) else (CsrStart(mem, a) + size - 1) % U64
  }

  /** Registers where the driver takes them: behind the header, absolute, or relative inside the window. */
  predicate InPlace(mem: Mem, fiu: int, a: int, end: int) {
    Version(mem(a)) != 1 || mem(a + 0x18) % 2 == 1 ||
    (fiu <= CsrStart(mem, a) < end && fiu <= CsrEnd(mem, a) < end)
  }

  /** The feature of the last of these headers, an FIU or a private one: where it was found, what its header
      says it is, and its registers. */
  ghost function OwnFeature(d: Device, end: int, headers: seq<int>): Feature
    requires headers != [] && InterfacesAdvance(d.mem, Last(headers), end)
  {
    var a := Last(headers);
    var v := d.mem(a);
    var fid := if HdrType(v) == TYPE_FIU then 0xfe else v % 0x1000;
    var one := Version(v) == 1;
    var size := FeatureSize(d.mem, a, end, v);
    var words := ParamWords(d.mem, a, size);
    Feature(a, fid, v / 0x1000 % 16, Version(v), one && d.mem(a + 0x18) % 2 == 1,
      if one then CsrStart(d.mem, a) else a,
      if one then CsrEnd(d.mem, a) else a + size - 1,
      Params.Block(d.mem, a + 0x28, if words.Some? then words.value else 0),
      Vectors(d, headers, a, fid))
  }

  /** The parameter block of a version 1 header that has one, in words; None when its chain leaves the feature. */
  ghost function ParamWords(mem: Mem, a: int, size: nat): Option<nat> {
    if Version(mem(a)) != 1 || mem(a + 0x20) / 0x8000_0000 % 2 == 0 then Some(0)
    else
      match Params.Chain(mem, a + 0x28, 0, size)
      case None => None
      case Some(headers) => Some(Params.BlockWords(mem, a + 0x28, headers))
  }

  lemma ParamSizeMeans(mem: Mem, a: int, size: nat)
    ensures var words := ParamWords(mem, a, size);
      ParamSize(mem, a, size, Version(mem(a))) == if words.Some? then 8 * words.value else -ENOENT
  {
    hide Version; hide Params.Chain; hide Params.BlockWords;
  }

  ghost function Vectors(d: Device, headers: seq<int>, a: int, fid: nat): (nat, nat)
    requires headers != []
  {
    var irqs := d.irqs(TypeOf(d.mem, headers), a, fid);
    if irqs.Some? then irqs.value else (0, 0)
  }

  /** The AFU of a port: the number of KiB its capability register gives, from `where` on. */
  ghost function AfuFeature(d: Device, headers: seq<int>, where: int): Feature
    requires headers != []
  {
    Feature(Last(headers), 0xff, 0, 0, false, where, where + AfuSize(d.mem, headers[0]) - 1, [],
      Vectors(d, headers, where, 0xff))
  }

  function AfuSize(mem: Mem, fiu: int): nat {
    1024 * (mem(fiu + 0x30) / 0x100 % 0x1_0000)
  }

  /** Where the last header, a port, has its AFU by its NEXT_AFU register. */
  ghost predicate PointsToAfu(mem: Mem, headers: seq<int>)
    requires headers != []
  {
    HdrType(mem(Last(headers))) == TYPE_FIU && TypeOf(mem, headers) == PORT_ID &&
    NextAfu(mem(Last(headers) + 0x18)) != 0
  }

  ghost predicate IsAfu(mem: Mem, headers: seq<int>)
    requires headers != []
  {
    HdrType(mem(Last(headers))) == TYPE_AFU && TypeOf(mem, headers) == PORT_ID
  }

  /** What the last of the headers of a window adds to its device. */
  ghost function Adds(d: Device, end: int, headers: seq<int>): seq<Feature>
    requires headers != [] && InterfacesAdvance(d.mem, Last(headers), end)
  {
    var a := Last(headers);
    (if OwnsFeature(d.mem, headers) && InPlace(d.mem, headers[0], a, end) then [OwnFeature(d, end, headers)] else []) +
    (if PointsToAfu(d.mem, headers) then [AfuFeature(d, headers, a + NextAfu(d.mem(a + 0x18)))]
     else if IsAfu(d.mem, headers) then [AfuFeature(d, headers, a)]
     else [])
  }

  predicate OwnsFeature(mem: Mem, headers: seq<int>)
    requires headers != []
  {
    HdrType(mem(Last(headers))) == TYPE_FIU || HdrType(mem(Last(headers))) == TYPE_PRIVATE
  }

  /** The features of a window with these headers, in order. */
  ghost function Expected(d: Device, end: int, headers: seq<int>): seq<Feature>
    requires forall i :: 0 <= i < |headers| ==> InterfacesAdvance(d.mem, headers[i], end)
    decreases |headers|
  {
    if headers == [] then [] else Expected(d, end, headers[..|headers| - 1]) + Adds(d, end, headers)
  }

  /** The feature of the last header can be made: it has a size, its parameters end, it fits the list, and its
      interrupt vectors are accepted. */
  ghost predicate OwnFine(d: Device, end: int, headers: seq<int>)
    requires headers != [] && InterfacesAdvance(d.mem, Last(headers), end)
  {
    var a := Last(headers);
    OwnFits(d, end, headers) &&
    (InPlace(d.mem, headers[0], a, end) ==>
      d.irqs(TypeOf(d.mem, headers), a, if HdrType(d.mem(a)) == TYPE_FIU then 0xfe else d.mem(a) % 0x1000).Some?)
  }

  ghost predicate AfuFine(d: Device, end: int, headers: seq<int>, where: int)
    requires headers != []
  {
    AfuSize(d.mem, headers[0]) <= (end - where) % U64 && d.irqs(TypeOf(d.mem, headers), where, 0xff).Some?
  }

  /** The last of the headers of a window is no reason to give up. */
  ghost predicate Fine(d: Device, end: int, headers: seq<int>)
    requires headers != [] && InterfacesAdvance(d.mem, Last(headers), end)
  {
    var a := Last(headers);
    (HdrType(d.mem(a)) == TYPE_FIU ==> d.mem(a) % 0x1000 <= 2) &&
    (OwnsFeature(d.mem, headers) ==> OwnFine(d, end, headers)) &&
    (PointsToAfu(d.mem, headers) ==> AfuFine(d, end, headers, a + NextAfu(d.mem(a + 0x18)))) &&
    (IsAfu(d.mem, headers) ==> AfuFine(d, end, headers, a))
  }

  /** The headers of the window a header belongs to: an FIU opens one of its own. */
  function Window(mem: Mem, headers: seq<int>, a: int): (r: seq<int>)
    ensures r != [] && Last(r) == a
  {
    if HdrType(mem(a)) == TYPE_FIU then [a] else headers + [a]
  }

  /** The list from `addr` on is accepted, after these headers of the window it is in. */
  ghost predicate Accepted(d: Device, end: int, headers: seq<int>, addr: int)
    requires InterfacesAdvance(d.mem, addr, end)
    decreases end - addr
  {
    addr >= end ||
    (end - addr >= DFH_SIZE && Fine(d, end, Window(d.mem, headers, addr)) &&
     (Eol(d.mem(addr)) || NextHdr(d.mem(addr)) == 0 ||
      Accepted(d, end, Window(d.mem, headers, addr), addr + NextHdr(d.mem(addr)))))
  }

  /** A group is what the headers of its window stand for. */
  ghost predicate GroupOf(d: Device, end: int, g: Group, headers: seq<int>) {
    headers != [] && (forall i :: 0 <= i < |headers| ==> InterfacesAdvance(d.mem, headers[i], end)) &&
    g == Group(TypeOf(d.mem, headers), headers[0], Expected(d, end, headers))
  }

  ghost predicate GroupsOf(d: Device, end: int, groups: seq<Group>, windows: seq<seq<int>>) {
    |groups| == |windows| && forall k :: 0 <= k < |groups| ==> GroupOf(d, end, groups[k], windows[k])
  }

  /** The walk has built what the headers so far stand for. */
  ghost predicate Tracks(d: Device, end: int, b: Build, windows: seq<seq<int>>, headers: seq<int>) {
    GroupsOf(d, end, b.groups, windows) &&
    if b.typ == DFL_ID_MAX then headers == [] && windows == [] && b.sub == []
    else GroupOf(d, end, Group(b.typ, b.start, b.sub), headers)
  }

  lemma OwnExact(d: Device, b: Build, end: int, headers: seq<int>, ofst: nat)
    requires b.start + b.len == end && InterfacesAdvance(d.mem, b.start, end) && 0 <= b.start && ofst <= b.len
    requires headers != [] && b.start == headers[0] && b.start + ofst == Last(headers)
    requires b.typ == TypeOf(d.mem, headers)
    requires OwnsFeature(d.mem, headers) && InterfacesAdvance(d.mem, Last(headers), end)
    ensures var r := Add(b, Create(d, b, b.start + ofst, ofst, 0, 0));
      (r.Ok? <==> OwnFine(d, end, headers)) &&
      (r.Ok? ==> r.value.(num := b.num) == b.(sub := b.sub +
        if InPlace(d.mem, b.start, b.start + ofst, end) then [OwnFeature(d, end, headers)] else []))
  {
    hide FeatureSize; hide ParamSize; hide ParamWords; hide Version; hide InterfacesAdvance; hide TypeOf; hide HdrType;
    hide Place; hide InPlace; hide CsrStart; hide CsrEnd;
    var a := b.start + ofst;
    var size := FeatureSize(d.mem, a, end, d.mem(a));
    ParamSizeMeans(d.mem, a, size);
    if OwnFits(d, end, headers) { PlaceExact(d, b, end, headers, ofst); }
  }

  /** The checks before a feature is made. */
  ghost predicate OwnFits(d: Device, end: int, headers: seq<int>)
    requires headers != [] && InterfacesAdvance(d.mem, Last(headers), end)
  {
    var a := Last(headers);
    var size := FeatureSize(d.mem, a, end, d.mem(a));
    size > 0 && ParamWords(d.mem, a, size).Some? && size <= (end - a) % U64
  }

  lemma CsrMeans(mem: Mem, start: int, ofst: nat)
    ensures CsrRegion(mem, start, ofst) ==
            (CsrStart(mem, start + ofst), CsrEnd(mem, start + ofst), mem(start + ofst + 0x18) % 2 == 1)
  {
  }

  /** Placing the last header makes the feature it stands for, where its registers are accepted. */
  lemma PlaceExact(d: Device, b: Build, end: int, headers: seq<int>, ofst: nat)
    requires headers != [] && b.start == headers[0] && b.start + ofst == Last(headers) && b.start + b.len == end
    requires b.typ == TypeOf(d.mem, headers) && OwnsFeature(d.mem, headers)
    requires InterfacesAdvance(d.mem, Last(headers), end) && OwnFits(d, end, headers)
    ensures var a := b.start + ofst; var v := d.mem(a);
      var size := FeatureSize(d.mem, a, end, v);
      var words, fid := ParamWords(d.mem, a, size).value, if HdrType(v) == TYPE_FIU then 0xfe else v % 0x1000;
      Place(d, b, a, ofst, size, FeatureId(v), Revision(v), Version(v), 8 * words) ==
        if !InPlace(d.mem, b.start, a, end) then Ignored
        else if d.irqs(b.typ, a, fid).None? then Failed(-EINVAL)
        else Made(OwnFeature(d, end, headers))
  {
    hide FeatureSize; hide ParamWords; hide Version; hide InterfacesAdvance; hide TypeOf; hide HdrType;
    hide CsrRegion; hide CsrStart; hide CsrEnd; hide Params.Block;
    CsrMeans(d.mem, b.start, ofst);
  }

  lemma AfuExact(d: Device, b: Build, end: int, headers: seq<int>, at: int, ofst: nat)
    requires b.start + b.len == end && InterfacesAdvance(d.mem, b.start, end)
    requires headers != [] && b.start == headers[0] && at == Last(headers) && b.typ == TypeOf(d.mem, headers)
    requires b.typ == PORT_ID
    ensures var r := ParseAfu(d, b, at, ofst);
      (r.Ok? <==> AfuFine(d, end, headers, b.start + ofst)) &&
      (r.Ok? ==> r.value.(num := b.num) == b.(sub := b.sub + [AfuFeature(d, headers, b.start + ofst)]))
  {
    hide InterfacesAdvance; hide TypeOf; hide CsrRegion;
    assert Params.Block(d.mem, b.start + ofst + Params.PARAM_HDR, 0) == [];
  }

  lemma TypeOfOne(mem: Mem, a: int)
    requires HdrType(mem(a)) == TYPE_FIU
    ensures TypeOf(mem, [a]) == IdToType(Id(mem(a)))
  {
    hide HdrType;
    assert HasPrivate(mem, [a]) ==> HdrType(mem(a)) == TYPE_PRIVATE;
  }

  lemma TypeOfPush(mem: Mem, headers: seq<int>, a: int)
    requires headers != []
    ensures TypeOf(mem, headers + [a]) ==
            if HdrType(mem(a)) == TYPE_PRIVATE && Version(mem(headers[0])) == 1 then PRIV_FEAT_ID
            else TypeOf(mem, headers)
  {
    hide HdrType; hide Version;
    var all := headers + [a];
    assert all[|headers|] == a;
    assert forall i :: 0 <= i < |headers| ==> all[i] == headers[i];
  }

  /** One more header of the same window. */
  lemma Push(d: Device, end: int, g: Group, headers: seq<int>, a: int, fs: seq<Feature>, typ: DflId)
    requires GroupOf(d, end, g, headers) && InterfacesAdvance(d.mem, a, end) && typ == TypeOf(d.mem, headers + [a])
    requires fs == Adds(d, end, headers + [a])
    ensures GroupOf(d, end, Group(typ, g.start, g.features + fs), headers + [a])
  {
    hide InterfacesAdvance; hide Adds; hide TypeOf;
    assert (headers + [a])[..|headers|] == headers;
  }

  lemma First(d: Device, end: int, a: int, fs: seq<Feature>, typ: DflId)
    requires InterfacesAdvance(d.mem, a, end) && typ == TypeOf(d.mem, [a]) && fs == Adds(d, end, [a])
    ensures GroupOf(d, end, Group(typ, a, fs), [a])
  {
    hide InterfacesAdvance; hide Adds; hide TypeOf;
    assert [a][..0] == [];
    assert Expected(d, end, []) + fs == fs;
  }

  ghost predicate InWindow(d: Device, end: int, b: Build, ofst: nat) {
    0 <= b.start && b.start + b.len == end && ofst <= b.len && InterfacesAdvance(d.mem, b.start, end)
  }

  /** A private header: the walk adds what it stands for, or gives up when it is a reason to. */
  lemma PrivateExact(d: Device, end: int, b: Build, windows: seq<seq<int>>, headers: seq<int>, ofst: nat)
    requires InWindow(d, end, b, ofst) && Tracks(d, end, b, windows, headers) && b.typ != DFL_ID_MAX
    requires HdrType(d.mem(b.start + ofst)) == TYPE_PRIVATE
    ensures var r, all := ParsePrivate(d, b, ofst), headers + [b.start + ofst];
      InterfacesAdvance(d.mem, b.start + ofst, end) && (r.Ok? <==> Fine(d, end, all)) &&
      (r.Ok? ==> r.value.typ != DFL_ID_MAX && Tracks(d, end, r.value, windows, all))
  {
    hide InterfacesAdvance; hide TypeOf; hide HdrType; hide Version; hide Create; hide OwnFine; hide InPlace;
    hide OwnFeature; hide Expected; hide GroupsOf;
    var a := b.start + ofst;
    var all := headers + [a];
    Narrower(d.mem, b.start, a, end);
    TypeOfPush(d.mem, headers, a);
    var b' := if Version(d.mem(b.start)) == 1 then b.(typ := PRIV_FEAT_ID) else b;
    OwnExact(d, b', end, all, ofst);
    var own := if InPlace(d.mem, b.start, a, end) then [OwnFeature(d, end, all)] else [];
    assert Adds(d, end, all) == own;
    Push(d, end, Group(b.typ, b.start, b.sub), headers, a, own, b'.typ);
  }

  lemma Narrower(mem: Mem, lo: int, a: int, end: int)
    requires InterfacesAdvance(mem, lo, end) && lo <= a
    ensures InterfacesAdvance(mem, a, end)
  {
  }

  /** An AFU header. */
  lemma AfuHeaderExact(d: Device, end: int, b: Build, windows: seq<seq<int>>, headers: seq<int>, ofst: nat)
    requires InWindow(d, end, b, ofst) && Tracks(d, end, b, windows, headers) && b.typ != DFL_ID_MAX
    requires HdrType(d.mem(b.start + ofst)) == TYPE_AFU
    ensures var r, all := ParseAfu(d, b, b.start + ofst, ofst), headers + [b.start + ofst];
      InterfacesAdvance(d.mem, b.start + ofst, end) && (r.Ok? <==> Fine(d, end, all)) &&
      (r.Ok? ==> r.value.typ != DFL_ID_MAX && Tracks(d, end, r.value, windows, all))
  {
    hide InterfacesAdvance; hide TypeOf; hide HdrType; hide Version; hide Create; hide AfuFine; hide AfuFeature;
    hide Expected; hide GroupsOf;
    var a := b.start + ofst;
    var all := headers + [a];
    Narrower(d.mem, b.start, a, end);
    TypeOfPush(d.mem, headers, a);
    var fs := if b.typ == PORT_ID then [AfuFeature(d, all, a)] else [];
    if b.typ == PORT_ID { AfuExact(d, b, end, all, a, ofst); }
    assert Adds(d, end, all) == fs;
    Push(d, end, Group(b.typ, b.start, b.sub), headers, a, fs, b.typ);
  }

  /** The windows once the current one, if any, is complete. */
  function Closed(windows: seq<seq<int>>, headers: seq<int>): seq<seq<int>> {
    if headers == [] then windows else windows + [headers]
  }

  /** An FIU: what was built so far is a group of its own, and the window moves on. */
  lemma FiuExact(d: Device, end: int, b: Build, windows: seq<seq<int>>, headers: seq<int>, ofst: nat)
    requires InWindow(d, end, b, ofst) && Tracks(d, end, b, windows, headers) && (b.typ == DFL_ID_MAX ==> ofst == 0)
    requires HdrType(d.mem(b.start + ofst)) == TYPE_FIU
    ensures var r, all := ParseFiu(d, b, ofst), [b.start + ofst];
      InterfacesAdvance(d.mem, b.start + ofst, end) && (r.Ok? <==> Fine(d, end, all)) &&
      (r.Ok? ==> r.value.typ != DFL_ID_MAX && Tracks(d, end, r.value, Closed(windows, headers), all))
  {
    hide InterfacesAdvance; hide TypeOf; hide HdrType; hide Create; hide AfuFine; hide AfuFeature;
    hide OwnFine; hide InPlace; hide OwnFeature; hide Expected; hide NextAfu; hide ParseAfu;
    var a := b.start + ofst;
    Narrower(d.mem, b.start, a, end);
    TypeOfOne(d.mem, a);
    var r := Rebase(b, ofst);
    var typ := IdToType(Id(d.mem(a)));
    if typ != DFL_ID_MAX {
      var empty := r.(typ := typ, num := 0, sub := []);
      OwnExact(d, empty, end, [a], 0);
      var own := if InPlace(d.mem, a, a, end) then [OwnFeature(d, end, [a])] else [];
      var header := Add(empty, Create(d, empty, a, 0, 0, 0));
      var afu := NextAfu(d.mem(a + 0x18));
      var fs := own + if typ == PORT_ID && afu != 0 then [AfuFeature(d, [a], a + afu)] else [];
      if header.Ok? && typ == PORT_ID && afu != 0 { AfuExact(d, header.value, end, [a], a, afu); }
      assert Adds(d, end, [a]) == fs;
      First(d, end, a, fs, typ);
      if header.Ok? && typ != PORT_ID { NoAfu(d, header.value, a, afu); }
    }
  }

  lemma NoAfu(d: Device, b: Build, at: int, ofst: nat)
    requires InterfacesAdvance(d.mem, b.start, b.start + b.len) && b.typ != PORT_ID && b.typ != DFL_ID_MAX
    ensures ParseAfu(d, b, at, ofst) == Ok(b)
  {
  }

  /** One header of any type, in the window it opens or belongs to. */
  lemma HeaderExact(d: Device, end: int, b: Build, windows: seq<seq<int>>, headers: seq<int>, ofst: nat)
    requires InWindow(d, end, b, ofst) && Tracks(d, end, b, windows, headers)
    requires b.typ == DFL_ID_MAX ==> ofst == 0 && HdrType(d.mem(b.start)) == TYPE_FIU
    ensures var r, a := ParseHeader(d, b, ofst), b.start + ofst;
      var all := Window(d.mem, headers, a);
      InterfacesAdvance(d.mem, a, end) && (r.Ok? <==> Fine(d, end, all)) &&
      (r.Ok? ==>
        r.value.typ != DFL_ID_MAX &&
        Tracks(d, end, r.value, if HdrType(d.mem(a)) == TYPE_FIU then Closed(windows, headers) else windows, all))
  {
    hide InterfacesAdvance; hide TypeOf; hide HdrType; hide Fine; hide GroupsOf; hide ParsePrivate; hide ParseFiu;
    hide ParseAfu; hide Expected;
    var a := b.start + ofst;
    var t := HdrType(d.mem(a));
    if t == TYPE_FIU {
      FiuExact(d, end, b, windows, headers, ofst);
    } else if t == TYPE_PRIVATE {
      PrivateExact(d, end, b, windows, headers, ofst);
    } else if t == TYPE_AFU {
      AfuHeaderExact(d, end, b, windows, headers, ofst);
    } else {
      Narrower(d.mem, b.start, a, end);
      TypeOfPush(d.mem, headers, a);
      AddsNothing(d, end, headers + [a]);
      Push(d, end, Group(b.typ, b.start, b.sub), headers, a, [], b.typ);
    }
  }

  lemma AddsNothing(d: Device, end: int, headers: seq<int>)
    requires headers != [] && InterfacesAdvance(d.mem, Last(headers), end)
    requires HdrType(d.mem(Last(headers))) !in {TYPE_FIU, TYPE_PRIVATE, TYPE_AFU}
    ensures Adds(d, end, headers) == [] && Fine(d, end, headers)
  {
  }

  /** A window begins with its FIU and holds no other. */
  ghost predicate OneFiu(mem: Mem, headers: seq<int>) {
    headers != [] && forall i :: 0 <= i < |headers| ==> (HdrType(mem(headers[i])) == TYPE_FIU <==> i == 0)
  }

  ghost predicate Windows(mem: Mem, windows: seq<seq<int>>) {
    forall k :: 0 <= k < |windows| ==> OneFiu(mem, windows[k])
  }

  /** One more header is put where it belongs. */
  lemma WindowsStep(mem: Mem, windows: seq<seq<int>>, headers: seq<int>, a: int)
    requires Windows(mem, windows) && (headers != [] ==> OneFiu(mem, headers))
    requires headers == [] ==> HdrType(mem(a)) == TYPE_FIU
    ensures var fiu := HdrType(mem(a)) == TYPE_FIU;
      var windows' := if fiu then Closed(windows, headers) else windows;
      Windows(mem, windows') && OneFiu(mem, Window(mem, headers, a)) &&
      Flatten(windows') + Window(mem, headers, a) == Flatten(windows) + headers + [a]
  {
    hide HdrType;
    FlattenPush(windows, headers);
  }

  lemma Regroup(a: seq<int>, b: seq<int>, c: seq<int>)
    ensures a + b + c == a + (b + c) && a + [] == a
  {
  }

  /** The rest of the walk. */
  lemma {:induction false} WalkExact(d: Device, end: int, b: Build, windows: seq<seq<int>>, headers: seq<int>,
                                     addr: int)
    returns (windows': seq<seq<int>>, headers': seq<int>)
    requires InWindow(d, end, b, 0) && b.start <= addr && Tracks(d, end, b, windows, headers)
    requires Windows(d.mem, windows) && (headers != [] ==> OneFiu(d.mem, headers))
    requires b.typ == DFL_ID_MAX ==> addr == b.start && (addr < end ==> HdrType(d.mem(addr)) == TYPE_FIU)
    ensures InterfacesAdvance(d.mem, addr, end)
    ensures var r := Walk(d, b, addr, end);
      (r.Ok? <==> Accepted(d, end, headers, addr)) &&
      (r.Ok? ==>
        Tracks(d, end, r.value, windows', headers') && Windows(d.mem, windows') &&
        (headers' != [] ==> OneFiu(d.mem, headers')) &&
        Flatten(windows') + headers' == Flatten(windows) + headers + Visited(d.mem, addr, end))
    decreases end - addr
  {
    hide InterfacesAdvance; hide HdrType; hide NextHdr; hide Eol; hide ParseHeader; hide Fine; hide Tracks;
    hide Windows; hide OneFiu; hide Flatten;
    windows', headers' := windows, headers;
    Narrower(d.mem, b.start, addr, end);
    if end - addr >= DFH_SIZE {
      TracksStarted(d, end, b, windows, headers);
      HeaderExact(d, end, b, windows, headers, addr - b.start);
      WindowsStep(d.mem, windows, headers, addr);
      var r, v := ParseHeader(d, b, addr - b.start), d.mem(addr);
      windows' := if HdrType(v) == TYPE_FIU then Closed(windows, headers) else windows;
      headers' := Window(d.mem, headers, addr);
      if r.Ok? && !(Eol(v) || NextHdr(v) == 0) {
        Narrower(d.mem, b.start, r.value.start, end);
        var w, h := WalkExact(d, end, r.value, windows', headers', addr + NextHdr(v));
        Regroup(Flatten(windows) + headers, [addr], Visited(d.mem, addr + NextHdr(v), end));
        windows', headers' := w, h;
      }
    } else {
      Regroup(Flatten(windows) + headers, [], []);
    }
  }

  lemma TracksStarted(d: Device, end: int, b: Build, windows: seq<seq<int>>, headers: seq<int>)
    requires Tracks(d, end, b, windows, headers)
    ensures b.typ != DFL_ID_MAX ==> headers != [] && headers[0] == b.start
    ensures b.typ == DFL_ID_MAX ==> headers == [] && windows == []
  {
  }

  /** Enumerating a well-formed list succeeds exactly when no header on it is a reason to give up. Then the
      headers visited fall into one window for each FIU, and each window's group has exactly the type and the
      features its headers stand for, in order. */
  lemma EnumerateExact(d: Device, start: int, len: nat, num: nat) returns (windows: seq<seq<int>>)
    requires len > 0 && WellFormed(d.mem, start, start + len)
    ensures var r, end := Enumerate(d, start, len, num), start + len;
      (r.Ok? <==> Accepted(d, end, [], start)) &&
      (r.Ok? ==>
        GroupsOf(d, end, r.value, windows) && Windows(d.mem, windows) &&
        Flatten(windows) == Visited(d.mem, start, end))
  {
    hide Walk; hide Accepted; hide Visited; hide HdrType; hide OneFiu; hide InterfacesAdvance; hide AfusInside;
    hide Flatten; hide GroupOf;
    var b, end := Build(DFL_ID_MAX, start, len, [], num, []), start + len;
    FlattenNone();
    var w, h := WalkExact(d, end, b, [], [], start);
    windows := Closed(w, h);
    FlattenPush(w, h);
    var r := Walk(d, b, start, end);
    if r.Ok? {
      TracksStarted(d, end, r.value, w, h);
      assert Flatten(w) + h == Visited(d.mem, start, end);
      assert h == [] ==> Flatten(w) + h == Flatten(w);
    }
    assert [] + [] + Visited(d.mem, start, end) == Visited(d.mem, start, end);
  }

  lemma FlattenNone()
    ensures Flatten<int>([]) == []
  {
  }

  // ---------------------------------------------------------------- the AFUs

  /** A feature for the AFU of the port at `fiu`, from `where` on. */
  predicate AfuOf(mem: Mem, fiu: int, f: Feature, at: int, where: int) {
    f.at == at && f.fid == 0xff && f.revision == 0 && f.version == 0 && !f.absolute &&
    f.resStart == where && f.resEnd == where + 1024 * (mem(fiu + 0x30) / 0x100 % 0x1_0000) - 1
  }

  /** A port, as long as no private header has turned its window into another device. */
  ghost predicate StillPort(mem: Mem, headers: seq<int>)
    requires headers != []
  {
    mem(headers[0]) % 0x1000 == 1 && !(Version(mem(headers[0])) == 1 && HasPrivate(mem, headers))
  }

  /** The AFUs of the window's headers up to number i, by the port's NEXT_AFU register or by a header of their
      own on the list. */
  ghost predicate HeaderHasAfu(mem: Mem, w: seq<int>, i: nat, where: int)
    requires i < |w|
  {
    StillPort(mem, w[..i + 1]) &&
    ((HdrType(mem(w[i])) == TYPE_FIU && NextAfu(mem(w[i] + 0x18)) != 0 && where == w[i] + NextAfu(mem(w[i] + 0x18))) ||
     (HdrType(mem(w[i])) == TYPE_AFU && where == w[i]))
  }

  lemma {:induction false} ExpectedIs(d: Device, end: int, w: seq<int>, f: Feature)
    requires forall i :: 0 <= i < |w| ==> InterfacesAdvance(d.mem, w[i], end)
    ensures f in Expected(d, end, w) <==> exists i :: 0 <= i < |w| && AddedBy(d, end, w, f, i)
    decreases |w|
  {
    hide InterfacesAdvance; hide Adds;
    if w != [] {
      var n := |w| - 1;
      var init := w[..n];
      ExpectedIs(d, end, init, f);
      assert w[..n + 1] == w;
      forall i | 0 <= i < n
        ensures AddedBy(d, end, init, f, i) <==> AddedBy(d, end, w, f, i)
      {
        assert init[..i + 1] == w[..i + 1];
      }
      assert f in Adds(d, end, w) <==> AddedBy(d, end, w, f, n);
    }
  }

  ghost predicate AddedBy(d: Device, end: int, w: seq<int>, f: Feature, i: nat)
    requires i < |w| && InterfacesAdvance(d.mem, w[i], end)
  {
    f in Adds(d, end, w[..i + 1])
  }

  lemma StillPortMeans(mem: Mem, headers: seq<int>)
    requires headers != []
    ensures StillPort(mem, headers) <==> TypeOf(mem, headers) == PORT_ID
  {
    hide Version; hide HasPrivate;
  }

  /** What a header adds with the AFU's identifier: its AFU, if it has one; otherwise only a private header with
      that very identifier. */
  lemma AddsAfu(d: Device, end: int, w: seq<int>, i: nat)
    requires i < |w| && InterfacesAdvance(d.mem, w[i], end)
    ensures forall where :: HeaderHasAfu(d.mem, w, i, where) ==>
      exists f :: AddedBy(d, end, w, f, i) && AfuOf(d.mem, w[0], f, w[i], where)
    ensures forall f :: AddedBy(d, end, w, f, i) && f.fid == 0xff ==>
      (exists where :: HeaderHasAfu(d.mem, w, i, where) && AfuOf(d.mem, w[0], f, w[i], where)) ||
      (HdrType(d.mem(w[i])) == TYPE_PRIVATE && d.mem(w[i]) % 0x1000 == 0xff)
  {
    hide InterfacesAdvance; hide TypeOf; hide StillPort; hide HdrType; hide NextAfu; hide InPlace; hide Vectors;
    hide FeatureSize; hide ParamWords; hide Version;
    var headers := w[..i + 1];
    var a := w[i];
    StillPortMeans(d.mem, headers);
    forall where | HeaderHasAfu(d.mem, w, i, where)
      ensures exists f :: AddedBy(d, end, w, f, i) && AfuOf(d.mem, w[0], f, a, where)
    {
      var f := AfuFeature(d, headers, where);
      assert f in Adds(d, end, headers);
      assert AddedBy(d, end, w, f, i) && AfuOf(d.mem, w[0], f, a, where);
    }
    forall f | AddedBy(d, end, w, f, i) && f.fid == 0xff
      ensures (exists where :: HeaderHasAfu(d.mem, w, i, where) && AfuOf(d.mem, w[0], f, a, where)) ||
              (HdrType(d.mem(a)) == TYPE_PRIVATE && d.mem(a) % 0x1000 == 0xff)
    {
      if PointsToAfu(d.mem, headers) && f == AfuFeature(d, headers, a + NextAfu(d.mem(a + 0x18))) {
        assert HeaderHasAfu(d.mem, w, i, a + NextAfu(d.mem(a + 0x18)));
      } else if IsAfu(d.mem, headers) && f == AfuFeature(d, headers, a) {
        assert HeaderHasAfu(d.mem, w, i, a);
      } else {
        assert f == OwnFeature(d, end, headers);
      }
    }
  }

  /** In a list enumerated with success, every AFU of a port is a feature of that port's device, with the
      registers its capability gives, and no feature has the AFU's identifier otherwise, but for a private header
      that carries it. */
  ghost predicate AfusLand(mem: Mem, g: Group, w: seq<int>) {
    (forall i, where :: 0 <= i < |w| && HeaderHasAfu(mem, w, i, where) ==>
      exists f :: f in g.features && AfuOf(mem, w[0], f, w[i], where)) &&
    (forall f :: f in g.features && f.fid == 0xff ==> exists i :: 0 <= i < |w| && Explains(mem, w, f, i))
  }

  ghost predicate Explains(mem: Mem, w: seq<int>, f: Feature, i: nat)
    requires i < |w|
  {
    (exists where :: HeaderHasAfu(mem, w, i, where) && AfuOf(mem, w[0], f, w[i], where)) ||
    (HdrType(mem(w[i])) == TYPE_PRIVATE && mem(w[i]) % 0x1000 == 0xff)
  }

  lemma AfusOfWindow(d: Device, end: int, g: Group, w: seq<int>)
    requires GroupOf(d, end, g, w)
    ensures AfusLand(d.mem, g, w)
  {
    hide InterfacesAdvance; hide HeaderHasAfu; hide AfuOf; hide AddedBy; hide Expected; hide TypeOf; hide HdrType;
    forall i: nat, where | i < |w| && HeaderHasAfu(d.mem, w, i, where)
      ensures exists f :: f in g.features && AfuOf(d.mem, w[0], f, w[i], where)
    {
      AddsAfu(d, end, w, i);
      var f :| AddedBy(d, end, w, f, i) && AfuOf(d.mem, w[0], f, w[i], where);
      ExpectedIs(d, end, w, f);
    }
    forall f | f in g.features && f.fid == 0xff
      ensures exists i :: 0 <= i < |w| && Explains(d.mem, w, f, i)
    {
      ExpectedIs(d, end, w, f);
      var i :| 0 <= i < |w| && AddedBy(d, end, w, f, i);
      AddsAfu(d, end, w, i);
      assert Explains(d.mem, w, f, i);
    }
  }

  lemma EveryAfuLands(d: Device, start: int, len: nat, num: nat) returns (windows: seq<seq<int>>)
    requires len > 0 && WellFormed(d.mem, start, start + len)
    ensures var r := Enumerate(d, start, len, num);
      r.Ok? ==>
        |windows| == |r.value| && Windows(d.mem, windows) && Flatten(windows) == Visited(d.mem, start, start + len) &&
        forall k :: 0 <= k < |windows| ==> windows[k][0] == r.value[k].start && AfusLand(d.mem, r.value[k], windows[k])
  {
    hide Enumerate; hide Visited; hide Flatten; hide AfusLand; hide HdrType; hide InterfacesAdvance; hide AfusInside;
    hide Accepted;
    windows := EnumerateExact(d, start, len, num);
    var r, end := Enumerate(d, start, len, num), start + len;
    if r.Ok? {
      forall k | 0 <= k < |windows|
        ensures windows[k] != [] && windows[k][0] == r.value[k].start && AfusLand(d.mem, r.value[k], windows[k])
      {
        assert GroupOf(d, end, r.value[k], windows[k]);
        AfusOfWindow(d, end, r.value[k], windows[k]);
      }
    }
  }

  // ---------------------------------------------------------------- feature devices

  /** A feature of a committed device; resourceIndex is -1 for the FIU header, which the bus driver maps
      itself. */
  datatype DevFeature = DevFeature(
    id: nat,
    revision: nat,
    version: nat,
    params: seq<nat>,
    resourceIndex: int,
    irqs: (nat, nat))

  datatype FeatureDev = FeatureDev(typ: DflId, features: seq<DevFeature>, resources: seq<(int, int)>)

  predicate IsHeader(f: Feature) { f.fid == FEATURE_ID_FIU_HEADER }

  /** The regions of the features other than the FIU header, in order. */
  function Resources(fs: seq<Feature>): seq<(int, int)> {
    if fs == [] then []
    else
      var f := fs[|fs| - 1];
      Resources(fs[..|fs| - 1]) + (if IsHeader(f) then [] else [(f.resStart, f.resEnd)])
  }

  function DevFeatures(fs: seq<Feature>): (r: seq<DevFeature>)
    ensures |r| == |fs|
  {
    if fs == [] then []
    else
      var init, f := fs[..|fs| - 1], fs[|fs| - 1];
      DevFeatures(init) + [DevFeature(f.fid, f.revision, f.version, f.params,
        if IsHeader(f) then -1 else |Resources(init)|, f.irqs)]
  }

  function BuildDev(g: Group): FeatureDev {
    FeatureDev(g.typ, DevFeatures(g.features), Resources(g.features))
  }

  /** Feature j of the device describes feature j of the FIU, and its resource is that feature's region. */
  predicate Describes(dev: FeatureDev, fs: seq<Feature>, j: nat)
    requires j < |fs| == |dev.features|
  {
    var df, f := dev.features[j], fs[j];
    df.id == f.fid && df.revision == f.revision && df.version == f.version &&
    df.params == f.params && df.irqs == f.irqs &&
    if IsHeader(f) then df.resourceIndex == -1
    else 0 <= df.resourceIndex < |dev.resources| && dev.resources[df.resourceIndex] == (f.resStart, f.resEnd)
  }

  /** A device is another with one feature, and the region it may bring, added at the end. */
  predicate Extends(dev: FeatureDev, dev0: FeatureDev, f: Feature) {
    var n := |dev0.features|;
    |dev.features| == n + 1 && dev.features[..n] == dev0.features &&
    dev.features[n] ==
      DevFeature(f.fid, f.revision, f.version, f.params, if IsHeader(f) then -1 else |dev0.resources|, f.irqs) &&
    dev.resources == dev0.resources + (if IsHeader(f) then [] else [(f.resStart, f.resEnd)])
  }

  /** All but the last feature of a FIU. */
  function Init(g: Group): Group
    requires g.features != []
  {
    g.(features := g.features[..|g.features| - 1])
  }

  /** Each device gets its own features in order, and their resource indices are distinct and dense: they
      count 0, 1, 2, ... over the features other than the FIU header. */
  lemma {:induction false} DenseResources(g: Group)
    ensures var dev := BuildDev(g);
      dev.typ == g.typ && |dev.features| == |g.features| &&
      (forall j :: 0 <= j < |g.features| ==> Describes(dev, g.features, j)) &&
      (forall i, j :: 0 <= i < j < |g.features| && !IsHeader(g.features[i]) && !IsHeader(g.features[j]) ==>
        dev.features[i].resourceIndex < dev.features[j].resourceIndex) &&
      (forall r :: 0 <= r < |dev.resources| ==> Indexed(dev, r))
    decreases |g.features|
  {
    if g.features != [] {
      hide Describes; hide Indexed; hide IsHeader; hide DevFeatures; hide Resources;
      DenseResources(Init(g));
      forall j | 0 <= j < |g.features|
        ensures Describes(BuildDev(g), g.features, j)
      {
        StillDescribed(g, j);
      }
      forall i, j | 0 <= i < j < |g.features| && !IsHeader(g.features[i]) && !IsHeader(g.features[j])
        ensures BuildDev(g).features[i].resourceIndex < BuildDev(g).features[j].resourceIndex
      {
        StillAscending(g, i, j);
      }
      forall r | 0 <= r < |BuildDev(g).resources|
        ensures Indexed(BuildDev(g), r)
      {
        StillIndexed(g, r);
      }
    }
  }

  lemma BuiltLast(g: Group)
    requires g.features != []
    ensures Extends(BuildDev(g), BuildDev(Init(g)), g.features[|g.features| - 1])
  {
  }

  lemma StillDescribed(g: Group, j: nat)
    requires j < |g.features|
    requires j < |g.features| - 1 ==> Describes(BuildDev(Init(g)), Init(g).features, j)
    ensures Describes(BuildDev(g), g.features, j)
  {
    hide DevFeatures; hide Resources;
    BuiltLast(g);
    if j < |g.features| - 1 { assert BuildDev(g).features[j] == BuildDev(Init(g)).features[j]; }
  }

  lemma StillAscending(g: Group, i: nat, j: nat)
    requires i < j < |g.features| && !IsHeader(g.features[i]) && !IsHeader(g.features[j])
    requires Describes(BuildDev(Init(g)), Init(g).features, i)
    requires j < |g.features| - 1 ==>
      BuildDev(Init(g)).features[i].resourceIndex < BuildDev(Init(g)).features[j].resourceIndex
    ensures BuildDev(g).features[i].resourceIndex < BuildDev(g).features[j].resourceIndex
  {
    hide DevFeatures; hide Resources;
    var dev, dev0 := BuildDev(g), BuildDev(Init(g));
    BuiltLast(g);
    assert dev.features[i] == dev0.features[i];
    if j < |g.features| - 1 { assert dev.features[j] == dev0.features[j]; }
  }

  lemma StillIndexed(g: Group, r: nat)
    requires g.features != [] && r < |BuildDev(g).resources|
    requires r < |BuildDev(Init(g)).resources| ==> Indexed(BuildDev(Init(g)), r)
    ensures Indexed(BuildDev(g), r)
  {
    hide DevFeatures; hide Resources;
    var dev, dev0 := BuildDev(g), BuildDev(Init(g));
    BuiltLast(g);
    if r < |dev0.resources| {
      var j :| 0 <= j < |dev0.features| && dev0.features[j].resourceIndex == r;
      assert dev.features[j] == dev0.features[j];
    }
  }

  predicate Indexed(dev: FeatureDev, r: int) {
    exists j :: 0 <= j < |dev.features| && dev.features[j].resourceIndex == r
  }

  // ---------------------------------------------------------------- the enumerator

  function BuildDevs(groups: seq<Group>): seq<FeatureDev> {
    if groups == [] then [] else BuildDevs(groups[..|groups| - 1]) + [BuildDev(groups[|groups| - 1])]
  }

  lemma BuildDevsPush(groups: seq<Group>, g: Group)
    ensures BuildDevs(groups + [g]) == BuildDevs(groups) + [BuildDev(g)]
  {
    assert (groups + [g])[..|groups|] == groups;
  }

  class Binfo {
    const d: Device
    var typ: DflId
    var start: int
    var len: int
    var sub: seq<Feature>
    var num: nat
    /** Feature devices registered so far, over all lists. */
    var devs: seq<FeatureDev>
    /** The groups committed from the current list. */
    ghost var groups: seq<Group>
    /** A kernel call has failed. */
    ghost var failed: bool

    constructor (d: Device)
      ensures this.d == d && typ == DFL_ID_MAX && sub == [] && num == 0 && devs == [] && !failed
    {
      this.d, typ, start, len, sub, num, devs, groups, failed := d, DFL_ID_MAX, 0, 0, [], 0, [], [], false;
    }

    /** Kernel calls that may fail for reasons of their own: allocation, mapping, registration. */
    method KernelCall() returns (ret: int)
      modifies this`failed
      ensures ret <= 0 && failed == (old(failed) || ret != 0)
    {
      ret := *;
      if ret > 0 {
        ret := 0;
      }
      if ret != 0 { failed := true; }
    }

    ghost function View(): Build
      reads this
    {
      Build(typ, start, len, sub, num, groups)
    }

    /** The devices are those of earlier lists followed by one for each group. */
    ghost predicate Devices(earlier: seq<FeatureDev>)
      reads this
    {
      devs == earlier + BuildDevs(groups)
    }

    ghost predicate Ready()
      reads this
    {
      0 <= len && InterfacesAdvance(d.mem, start, start + len) && (typ != DFL_ID_MAX ==> |sub| == num)
    }

    /** Ok with the new state, or the error of the specification; or the error of a kernel call. */
    ghost predicate Follows(ret: int, spec: Result<Build>)
      reads this
    {
      (ret == 0 ==> spec == Ok(View())) && (failed || spec.Err? ==> ret != 0) &&
      (!failed ==> ret == match spec case Ok(_) => 0 case Err(code) => code)
    }

    /** Fills the device's features and resources, list element by list element. */
    method CreateFeatureDevData() returns (ret: int, dev: FeatureDev)
      requires typ != DFL_ID_MAX && |sub| == num
      modifies this`failed
      ensures failed == (old(failed) || ret != 0)
      ensures ret == 0 ==> dev == BuildDev(Group(typ, start, sub)) && |dev.features| == num
    {
      ret := KernelCall();
      var features: seq<DevFeature>, resources: seq<(int, int)> := [], [];
      var index := 0;
      while index < |sub|
        invariant 0 <= index <= |sub| && features == DevFeatures(sub[..index]) && resources == Resources(sub[..index])
      {
        var finfo := sub[index];
        assert sub[..index + 1][..index] == sub[..index];
        var resourceIndex := -1;
        if !IsHeader(finfo) {
          resourceIndex := |resources|;
          resources := resources + [(finfo.resStart, finfo.resEnd)];
        }
        var f := DevFeature(finfo.fid, finfo.revision, finfo.version, finfo.params, resourceIndex, finfo.irqs);
        features := features + [f];
        index := index + 1;
      }
      assert sub[..|sub|] == sub;
      dev := FeatureDev(typ, features, resources);
    }

    method CommitDev(ghost earlier: seq<FeatureDev>) returns (ret: int)
      requires typ != DFL_ID_MAX && |sub| == num && Devices(earlier) && !failed
      modifies this
      ensures start == old(start) && len == old(len) && num == old(num) && failed == (ret != 0)
      ensures ret == 0 ==> Devices(earlier) && typ == DFL_ID_MAX && sub == []
      ensures ret == 0 ==> groups == old(groups) + [Group(old(typ), old(start), old(sub))]
    {
      hide BuildDev;
      hide BuildDevs;
      hide DevFeatures;
      var dev;
      ret, dev := CreateFeatureDevData();
      if ret != 0 {
        return;
      }
      ret := KernelCall();
      if ret != 0 {
        return;
      }
      ghost var g := Group(typ, start, sub);
      BuildDevsPush(groups, g);
      assert earlier + BuildDevs(groups) + [dev] == earlier + (BuildDevs(groups) + [dev]);
      devs, groups := devs + [dev], groups + [g];
      sub := [];
      typ := DFL_ID_MAX;
    }

    method CreateFeatureInstance(at: int, ofst: nat, size0: nat, fid0: nat) returns (ret: int)
      requires 0 <= len && InterfacesAdvance(d.mem, start, start + len) && !failed
      modifies this`sub, this`num, this`failed
      ensures Follows(ret, Add(old(View()), Create(d, old(View()), at, ofst, size0, fid0)))
      ensures |sub| - num == old(|sub| - num)
    {
      hide Version;
      hide Revision;
      hide FeatureSize;
      hide FeatureId;
      hide Place;
      hide HdrType;
      hide NextHdr;
      hide Params.HasParams;
      hide Params.Chain;
      hide Params.BlockWords;
      hide Params.Block;
      var size, fid, revision, version, psize: int := size0, fid0, 0, 0, 0;
      var dfh := start + ofst;
      if fid != FEATURE_ID_AFU {
        var v := d.mem(dfh);
        revision, version := Revision(v), Version(v);
        if size == 0 {
          size := ReadFeatureSize(d.mem, dfh, start + len, v);
        }
        if size == 0 {
          return -EINVAL;
        }
        fid := if fid > 0 then fid else FeatureId(v);
        if version == 1 {
          psize := Params.DfhGetParamSize(d.mem, dfh, size);
          if psize < 0 {
            return psize;
          }
        }
      }
      if Sub64(len, ofst) < size {
        return -EINVAL;
      }
      ret := PlaceFeature(at, ofst, size, fid, revision, version, psize);
    }

    /** Second half of create_feature_instance: allocate, find the register region, read the interrupt
        vectors and append. */
    method PlaceFeature(at: int, ofst: nat, size: nat, fid: nat, revision: nat, version: nat, psize: nat)
      returns (ret: int)
      requires !failed
      modifies this`sub, this`num, this`failed
      ensures Follows(ret, Add(old(View()), Place(d, old(View()), at, ofst, size, fid, revision, version, psize)))
      ensures |sub| - num == old(|sub| - num)
    {
      hide CsrRegion;
      hide Params.Block;
      var dfh := start + ofst;
      ret := KernelCall();
      if ret != 0 {
        return;
      }
      var csr := CsrRegion(d.mem, start, ofst);
      var params := Params.Block(d.mem, dfh + Params.PARAM_HDR, psize / 8);
      var resStart, resEnd := start + ofst, start + ofst + size - 1;
      if version == 1 {
        resStart, resEnd := csr.0, csr.1;
        if !csr.2 && !(InRange(resStart, start, len) && InRange(resEnd, start, len)) {
          return 0;
        }
      }
      var irqs := d.irqs(typ, dfh, fid);
      if irqs.None? {
        return -EINVAL;
      }
      sub := sub + [Feature(at, fid, revision, version, version == 1 && csr.2, resStart, resEnd, params, irqs.value)];
      num := num + 1;
    }

    method ParseFeatureAfu(at: int, ofst: nat) returns (ret: int)
      requires Ready() && !failed
      modifies this`sub, this`num, this`failed
      ensures Follows(ret, ParseAfu(d, old(View()), at, ofst))
      ensures |sub| - num == old(|sub| - num)
    {
      hide Create;
      if typ == DFL_ID_MAX {
        return -EINVAL;
      }
      ret := 0;
      if typ == PORT_ID {
        ret := CreateFeatureInstance(at, ofst, PortMmioSize(d.mem(start + 0x30)), FEATURE_ID_AFU);
      }
    }

    /** build_info_prepare after a window has been let go: the same list seen from a later header. */
    method Prepare(newStart: int, newLen: int) returns (ret: int)
      requires !failed
      modifies this`start, this`len, this`failed
      ensures failed == (ret != 0)
      ensures ret == 0 ==> start == newStart && len == newLen
      ensures ret != 0 ==> start == old(start) && len == old(len)
    {
      ret := KernelCall();
      if ret != 0 {
        return;
      }
      start, len := newStart, newLen;
    }

    /** The first half of parse_feature_fiu: commits the device so far and moves the window on. */
    method Rebased(ofst: nat, ghost earlier: seq<FeatureDev>) returns (ret: int)
      requires Ready() && ofst <= len && Devices(earlier) && !failed
      modifies this
      ensures start + len == old(start + len) && num == old(num) && failed == (ret != 0)
      ensures ret == 0 ==> View() == Rebase(old(View()), ofst) && Devices(earlier) && typ == DFL_ID_MAX && 0 <= len
    {
      hide BuildDevs;
      ret := 0;
      if typ != DFL_ID_MAX {
        ret := CommitDev(earlier);
        if ret != 0 {
          return;
        }
        ret := Prepare(start + ofst, len - ofst);
      }
    }

    method ParseFeatureFiu(ofst: nat, ghost earlier: seq<FeatureDev>) returns (ret: int)
      requires Ready() && ofst <= len && Devices(earlier) && !failed
      modifies this
      ensures Follows(ret, ParseFiu(d, old(View()), ofst))
      ensures start + len == old(start + len)
      ensures ret == 0 ==> Devices(earlier) && Ready()
    {
      hide Create;
      hide HdrType;
      hide NextHdr;
      hide NextAfu;
      hide IdToType;
      hide PortMmioSize;
      hide BuildDevs;
      hide Add;
      ret := Rebased(ofst, earlier);
      if ret != 0 {
        return;
      }
      var newType := IdToType(Id(d.mem(start)));
      if newType == DFL_ID_MAX {
        return -EINVAL;
      }
      typ, num, sub := newType, 0, [];
      ret := CreateFeatureInstance(start, 0, 0, 0);
      if ret != 0 {
        return;
      }
      var offset := NextAfu(d.mem(start + 0x18));
      if offset != 0 {
        ret := ParseFeatureAfu(start, offset);
      }
    }

    method ParseFeaturePrivate(ofst: nat) returns (ret: int)
      requires Ready() && !failed
      modifies this`typ, this`sub, this`num, this`failed
      ensures Follows(ret, ParsePrivate(d, old(View()), ofst))
      ensures |sub| - num == old(|sub| - num)
    {
      hide Create;
      hide Version;
      var version := Version(d.mem(start));
      if version == 0 && typ == DFL_ID_MAX {
        return -EINVAL;
      }
      if version == 1 {
        typ := PRIV_FEAT_ID;
      }
      ret := CreateFeatureInstance(start + ofst, ofst, 0, 0);
    }

    method ParseFeature(ofst: nat, ghost earlier: seq<FeatureDev>) returns (ret: int)
      requires Ready() && ofst <= len && Devices(earlier) && !failed
      requires typ == DFL_ID_MAX ==> HdrType(d.mem(start + ofst)) == TYPE_FIU
      modifies this
      ensures Follows(ret, ParseHeader(d, old(View()), ofst))
      ensures start + len == old(start + len)
      ensures ret == 0 ==> Devices(earlier) && Ready() && typ != DFL_ID_MAX
    {
      hide HdrType;
      hide NextHdr;
      hide Create;
      hide BuildDevs;
      hide Version;
      hide IdToType;
      hide PortMmioSize;
      hide NextAfu;
      ret := 0;
      var t := HdrType(d.mem(start + ofst));
      if t == TYPE_AFU {
        ret := ParseFeatureAfu(start + ofst, ofst);
      } else if t == TYPE_PRIVATE {
        ret := ParseFeaturePrivate(ofst);
      } else if t == TYPE_FIU {
        ret := ParseFeatureFiu(ofst, earlier);
      }
    }

    /** Walks one device feature list. Success means exactly the groups of the specification have been
        committed, one device each, after the devices of earlier lists; an error of the list itself is
        never reported as success. The loop ends because every next offset taken is positive. */
    method ParseFeatureList(lo: int, length: nat) returns (ret: int)
      requires typ == DFL_ID_MAX && sub == [] && WellFormed(d.mem, lo, lo + length) && !failed
      modifies this
      ensures ret == 0 ==> Enumerate(d, lo, length, old(num)) == Ok(groups) && devs == old(devs) + BuildDevs(groups)
      ensures ret == 0 ==> typ == DFL_ID_MAX && sub == []
      ensures failed || Enumerate(d, lo, length, old(num)).Err? ==> ret != 0
      ensures !failed ==> ret == match Enumerate(d, lo, length, old(num)) case Ok(_) => 0 case Err(code) => code
    {
      hide HdrType;
      hide AfusInside;
      hide Walk;
      ghost var earlier := devs;
      ret := Prepare(lo, length);
      if ret != 0 {
        return;
      }
      groups := [];
      assert devs == earlier + BuildDevs([]);
      hide BuildDevs;
      ret := WalkHeaders(earlier);
      if ret != 0 {
        return;
      }
      if typ != DFL_ID_MAX {
        ret := CommitDev(earlier);
      }
    }

    /** The loop of parse_feature_list over the headers of a window just prepared. */
    method WalkHeaders(ghost earlier: seq<FeatureDev>) returns (ret: int)
      requires Ready() && Devices(earlier) && typ == DFL_ID_MAX && !failed
      requires len > 0 ==> HdrType(d.mem(start)) == TYPE_FIU
      modifies this
      ensures Follows(ret, Walk(d, old(View()), old(start), old(start + len)))
      ensures ret == 0 ==> Devices(earlier) && Ready() && (typ == DFL_ID_MAX ==> sub == old(sub))
    {
      hide HdrType;
      hide NextHdr;
      hide Eol;
      hide ParseHeader;
      hide BuildDevs;
      ret := 0;
      var addr, end := start, start + len;
      ghost var lo := start;
      ghost var spec := Walk(d, View(), addr, end);
      while addr < end
        invariant start + len == end && lo <= start <= addr && Ready() && Devices(earlier) && !failed
        invariant typ == DFL_ID_MAX ==> addr == lo && start == lo && sub == old(sub)
        invariant spec == Walk(d, View(), addr, end)
        invariant HdrType(d.mem(lo)) == TYPE_FIU || addr >= end
        decreases end - addr
      {
        if end - addr < DFH_SIZE {
          return -EINVAL;
        }
        ret := ParseFeature(addr - start, earlier);
        if ret != 0 {
          return;
        }
        var v := d.mem(addr);
        if Eol(v) || NextHdr(v) == 0 {
          break;
        }
        addr := addr + NextHdr(v);
      }
      assert spec == Ok(View());
    }
  }
}
