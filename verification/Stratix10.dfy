/** The Stratix 10 loader, drivers/fpga/stratix10-soc.c: four service-layer buffers are filled, queued,
    handed back by a mailbox callback that may run at any moment, and freed at the end. */
module Stratix10 {
  import opened Common

  const NUM_SVC_BUFS: nat := 4
  const SVC_BUF_SIZE: nat := 0x8_0000
  const ENOBUFS: int := 105
  const EFAULT: int := 14
  const ETIMEDOUT: int := 110

  datatype Status = SUBMITTED | DONE | ERROR | OTHER

  /** What a wait for the callback ended with: the status bits then set, and whether it was cut short by the
      callback or had no need to wait. */
  datatype Look = Look(bits: set<Status>, signalled: bool)

  /** A returned or accepted buffer is progress, whatever else is reported; then an error ends the transfer,
      and so does silence. */
  function Answer(look: Look): int {
    if DONE in look.bits || SUBMITTED in look.bits then 0
    else if ERROR in look.bits then -EFAULT
    else if look.signalled then 0
    else -ETIMEDOUT
  }

  /** The one bit taken note of. */
  function Noted(bits: set<Status>): set<Status> {
    if DONE in bits then {DONE} else if SUBMITTED in bits then {SUBMITTED} else if ERROR in bits then {ERROR} else {}
  }

  /** A buffer slot of the driver: the service-layer address and the lock bit. */
  datatype SvcBuf = SvcBuf(buf: Option<nat>, locked: bool)

  lemma FlattenEmpty()
    ensures Flatten<Byte>([]) == []
  {
  }

  lemma PrefixGrows(ps: seq<seq<Byte>>, rest: seq<Byte>, n: nat, image: seq<Byte>)
    requires n <= |rest| && Flatten(ps) + rest == image
    ensures Flatten(ps + [rest[..n]]) + rest[n..] == image
  {
    FlattenPush(ps, rest[..n]);
    assert rest[..n] + rest[n..] == rest;
  }

  /** The state the driver and the service layer share, with the slot the driver holds locked for
      itself. `inflight` maps the buffers the service layer holds to the payload submitted in each;
      `returning` are buffers it has given up but whose lock the callback has not cleared yet. */
  datatype Shared = Shared(
    bufs: seq<SvcBuf>,
    pool: map<nat, seq<Byte>>,
    inflight: map<nat, seq<Byte>>,
    returning: set<nat>,
    held: Option<nat>)

  /** A slot is locked exactly for a reason: freed, being filled, queued, or on its way back. */
  predicate Justified(s: Shared, i: nat)
    requires i < |s.bufs|
  {
    var b := s.bufs[i];
    b.locked <==> (b.buf.None? || s.held == Some(i) || b.buf.value in s.inflight || b.buf.value in s.returning)
  }

  ghost predicate Owned(s: Shared, a: nat) {
    exists i :: 0 <= i < |s.bufs| && s.bufs[i].buf == Some(a)
  }

  ghost predicate Inv(s: Shared) {
    |s.bufs| == NUM_SVC_BUFS &&
    (forall i, j :: 0 <= i < j < |s.bufs| && s.bufs[i].buf.Some? ==> s.bufs[i].buf != s.bufs[j].buf) &&
    (forall i :: 0 <= i < |s.bufs| && s.bufs[i].buf.Some? ==> s.bufs[i].buf.value in s.pool) &&
    (forall a :: a in s.pool ==> |s.pool[a]| == SVC_BUF_SIZE && Owned(s, a)) &&
    (forall i :: 0 <= i < |s.bufs| ==> Justified(s, i)) &&
    (forall a :: a in s.inflight ==> a in s.pool && s.inflight[a] <= s.pool[a] && a !in s.returning) &&
    (forall a :: a in s.returning ==> a in s.pool) &&
    (s.held.Some? ==> HeldIsOurs(s, s.held.value))
  }

  predicate HeldIsOurs(s: Shared, i: nat) {
    i < |s.bufs| && s.bufs[i].buf.Some? && s.bufs[i].buf.value !in s.inflight && s.bufs[i].buf.value !in s.returning
  }

  /** While the service layer holds a buffer, whatever else happens, it is allocated, locked and still
      has the submitted payload in it. */
  lemma QueuedIsSafe(s: Shared, a: nat)
    requires Inv(s) && a in s.inflight
    ensures a in s.pool && s.inflight[a] <= s.pool[a]
    ensures exists i :: 0 <= i < |s.bufs| && s.bufs[i] == SvcBuf(Some(a), true)
  {
    assert Owned(s, a);
    var i :| 0 <= i < |s.bufs| && s.bufs[i].buf == Some(a);
    assert Justified(s, i);
    assert s.bufs[i] == SvcBuf(Some(a), true);
  }

  /** What the callback and the service layer can never change. */
  ghost predicate DriverKeeps(s: Shared, t: Shared) {
    t.held == s.held && t.pool == s.pool && |t.bufs| == |s.bufs| &&
    (forall i :: 0 <= i < |s.bufs| ==> t.bufs[i].buf == s.bufs[i].buf) &&
    (forall i :: 0 <= i < |s.bufs| && !s.bufs[i].locked ==> !t.bufs[i].locked) &&
    (forall a :: a in t.inflight ==> a in s.inflight && t.inflight[a] == s.inflight[a])
  }

  lemma KeepsItself(s: Shared)
    ensures DriverKeeps(s, s)
  {
  }

  lemma KeepsTransitive(s: Shared, t: Shared, u: Shared)
    requires DriverKeeps(s, t) && DriverKeeps(t, u)
    ensures DriverKeeps(s, u)
  {
  }

  lemma KeepsHeld(s: Shared, t: Shared, i: nat)
    requires DriverKeeps(s, t) && i < |s.bufs| && s.bufs[i].buf.Some?
    ensures t.held == s.held && t.pool == s.pool && |t.bufs| == |s.bufs| && t.bufs[i].buf == s.bufs[i].buf
    ensures SameBuffers(s, t)
  {
  }

  lemma KeepsBuffers(s: Shared, t: Shared)
    requires DriverKeeps(s, t)
    ensures SameBuffers(s, t) && t.held == s.held
  {
  }

  // ---------------------------------------------------------------- the atomic steps

  function Returned(s: Shared, a: nat): Shared {
    s.(inflight := s.inflight - {a}, returning := s.returning + {a})
  }

  lemma ReturnedInv(s: Shared, a: nat)
    requires Inv(s) && a in s.inflight
    ensures Inv(Returned(s, a)) && DriverKeeps(s, Returned(s, a))
  {
    hide Owned;
    var t := Returned(s, a);
    forall i | 0 <= i < |t.bufs|
      ensures Justified(t, i)
    {
      assert Justified(s, i);
    }
    SameOwners(s, t);
  }

  lemma SameOwners(s: Shared, t: Shared)
    requires |s.bufs| == |t.bufs| && forall i :: 0 <= i < |s.bufs| ==> s.bufs[i].buf == t.bufs[i].buf
    ensures forall a: nat :: Owned(s, a) ==> Owned(t, a)
  {
    forall a: nat | Owned(s, a)
      ensures Owned(t, a)
    {
      var i :| 0 <= i < |s.bufs| && s.bufs[i].buf == Some(a);
      assert t.bufs[i].buf == Some(a);
    }
  }

  function Unlocked(s: Shared, i: nat): Shared
    requires i < |s.bufs| && s.bufs[i].buf.Some?
  {
    s.(bufs := s.bufs[i := s.bufs[i].(locked := false)], returning := s.returning - {s.bufs[i].buf.value})
  }

  lemma UnlockedInv(s: Shared, i: nat)
    requires Inv(s) && i < |s.bufs| && s.bufs[i].buf.Some? && s.bufs[i].buf.value in s.returning
    ensures Inv(Unlocked(s, i)) && DriverKeeps(s, Unlocked(s, i))
  {
    hide Owned;
    var t := Unlocked(s, i);
    forall j | 0 <= j < |t.bufs|
      ensures Justified(t, j)
    {
      assert Justified(s, j);
    }
    SameOwners(s, t);
  }

  /** test_and_set_bit_lock won by the driver. */
  function Locked(s: Shared, i: nat): Shared
    requires i < |s.bufs|
  {
    s.(bufs := s.bufs[i := s.bufs[i].(locked := true)], held := Some(i))
  }

  lemma LockedInv(s: Shared, i: nat)
    requires Inv(s) && i < |s.bufs| && !s.bufs[i].locked && s.held.None?
    ensures Inv(Locked(s, i)) && s.bufs[i].buf.Some?
  {
    hide Owned;
    var t := Locked(s, i);
    assert Justified(s, i);
    forall j | 0 <= j < |t.bufs|
      ensures Justified(t, j)
    {
      assert Justified(s, j);
    }
    SameOwners(s, t);
  }

  /** The driver copies a payload into the buffer it holds. */
  function Filled(s: Shared, data: seq<Byte>): Shared
    requires s.held.Some? && s.held.value < |s.bufs| && s.bufs[s.held.value].buf.Some?
    requires s.bufs[s.held.value].buf.value in s.pool && |data| <= |s.pool[s.bufs[s.held.value].buf.value]|
  {
    var a := s.bufs[s.held.value].buf.value;
    s.(pool := s.pool[a := data + s.pool[a][|data|..]])
  }

  lemma FilledInv(s: Shared, data: seq<Byte>)
    requires Inv(s) && s.held.Some? && |data| <= SVC_BUF_SIZE
    ensures Inv(Filled(s, data))
  {
    hide Owned;
    var t := Filled(s, data);
    assert forall j :: 0 <= j < |s.bufs| ==> Justified(s, j);
    forall j | 0 <= j < |t.bufs|
      ensures Justified(t, j)
    {
      assert Justified(s, j);
    }
    SameOwners(s, t);
  }

  /** The message is queued: the service layer now holds the buffer. */
  function Submitted(s: Shared, data: seq<Byte>): Shared
    requires s.held.Some? && s.held.value < |s.bufs| && s.bufs[s.held.value].buf.Some?
  {
    s.(inflight := s.inflight[s.bufs[s.held.value].buf.value := data], held := None)
  }

  lemma SubmittedInv(s: Shared, data: seq<Byte>)
    requires Inv(s) && s.held.Some? && data <= s.pool[s.bufs[s.held.value].buf.value]
    ensures Inv(Submitted(s, data))
  {
    hide Owned;
    var t := Submitted(s, data);
    assert Justified(s, s.held.value);
    forall j | 0 <= j < |t.bufs|
      ensures Justified(t, j)
    {
      assert Justified(s, j);
    }
    SameOwners(s, t);
  }

  /** The held slot is unlocked again (a failed submit) or its buffer freed. */
  function GivenUp(s: Shared): Shared
    requires s.held.Some? && s.held.value < |s.bufs|
  {
    s.(bufs := s.bufs[s.held.value := s.bufs[s.held.value].(locked := false)], held := None)
  }

  lemma GivenUpInv(s: Shared)
    requires Inv(s) && s.held.Some?
    ensures Inv(GivenUp(s))
  {
    hide Owned;
    var t := GivenUp(s);
    forall j | 0 <= j < |t.bufs|
      ensures Justified(t, j)
    {
      assert Justified(s, j);
    }
    SameOwners(s, t);
  }

  function Freed(s: Shared): Shared
    requires s.held.Some? && s.held.value < |s.bufs| && s.bufs[s.held.value].buf.Some?
  {
    s.(bufs := s.bufs[s.held.value := SvcBuf(None, true)], held := None,
       pool := s.pool - {s.bufs[s.held.value].buf.value})
  }

  lemma FreedInv(s: Shared)
    requires Inv(s) && s.held.Some?
    ensures Inv(Freed(s))
  {
    FreedOwned(s);
    hide Owned;
    var t := Freed(s);
    forall j | 0 <= j < |t.bufs|
      ensures Justified(t, j)
    {
      assert Justified(s, j);
    }
    hide Justified;
  }

  lemma FreedOwned(s: Shared)
    requires Inv(s) && s.held.Some?
    ensures forall a :: a in Freed(s).pool ==> Owned(Freed(s), a)
  {
    hide Justified;
    var t := Freed(s);
    forall a | a in t.pool
      ensures Owned(t, a)
    {
      assert Owned(s, a);
      var i :| 0 <= i < |s.bufs| && s.bufs[i].buf == Some(a);
      assert t.bufs[i].buf == Some(a);
    }
  }

  // ---------------------------------------------------------------- the driver

  class S10 {
    var bufs: seq<SvcBuf>
    var pool: map<nat, seq<Byte>>
    var inflight: map<nat, seq<Byte>>
    var returning: set<nat>
    var status: set<Status>
    ghost var held: Option<nat>
    /** Payloads submitted so far, in order. */
    ghost var submitted: seq<seq<Byte>>

    ghost function View(): Shared
      reads this
    {
      Shared(bufs, pool, inflight, returning, held)
    }

    ghost predicate Valid()
      reads this
    {
      Inv(View())
    }

    /** After s10_ops_write_init: four buffers, none in use. */
    constructor (addrs: seq<nat>, memory: seq<Byte>)
      requires |addrs| == NUM_SVC_BUFS && |memory| == SVC_BUF_SIZE
      requires forall i, j :: 0 <= i < j < |addrs| ==> addrs[i] != addrs[j]
      ensures Valid() && held == None && submitted == [] && inflight == map[]
      ensures forall i :: 0 <= i < |bufs| ==> bufs[i] == SvcBuf(Some(addrs[i]), false)
    {
      bufs := seq(NUM_SVC_BUFS, i requires 0 <= i < NUM_SVC_BUFS => SvcBuf(Some(addrs[i]), false));
      pool := map a | a in addrs :: memory;
      inflight, returning, status, held, submitted := map[], {}, {}, None, [];
      new;
      forall a | a in pool
        ensures Owned(View(), a)
      {
        var i :| 0 <= i < |addrs| && addrs[i] == a;
        assert bufs[i].buf == Some(a);
      }
    }

    // -------------------------------------------------------------- the other side

    /** s10_unlock_bufs: finds the slot of a returned buffer and clears its lock bit. */
    method UnlockBuf(kaddr: Option<nat>)
      requires Valid() && (kaddr.Some? ==> kaddr.value in returning)
      modifies this`bufs, this`returning
      ensures Valid() && DriverKeeps(old(View()), View())
      ensures returning == if kaddr.Some? then old(returning) - {kaddr.value} else old(returning)
      ensures kaddr.None? ==> bufs == old(bufs)
      ensures forall i :: 0 <= i < |bufs| ==>
        bufs[i] == if kaddr.Some? && old(bufs[i].buf) == kaddr then SvcBuf(kaddr, false) else old(bufs[i])
    {
      hide Inv; hide DriverKeeps;
      KeepsItself(View());
      if kaddr.None? {
        return;
      }
      InvBounds(View());
      ReturningHasSlot(View(), kaddr.value);
      var i := 0;
      while bufs[i].buf != kaddr
        invariant 0 <= i < NUM_SVC_BUFS
        invariant exists j :: i <= j < |bufs| && bufs[j].buf == kaddr
        decreases NUM_SVC_BUFS - i
      {
        i := i + 1;
      }
      UnlockedInv(View(), i);
      bufs := bufs[i := bufs[i].(locked := false)];
      returning := returning - {kaddr.value};
    }

    /** s10_receive_callback, run without interruption: status bits are set, and with BUFFER_DONE each
        returned buffer is unlocked. */
    method ReceiveCallback(bits: set<Status>, k1: Option<nat>, k2: Option<nat>, k3: Option<nat>)
      requires Valid()
      requires DONE in bits ==> forall k :: k in {k1, k2, k3} && k.Some? ==> k.value in returning
      requires (k1.Some? ==> k1 != k2 && k1 != k3) && (k2.Some? ==> k2 != k3)
      modifies this`status, this`bufs, this`returning
      ensures Valid() && DriverKeeps(old(View()), View()) && status == old(status) + bits
      ensures DONE in bits ==>
        forall i :: 0 <= i < |bufs| && bufs[i].buf in {k1, k2, k3} && bufs[i].buf.Some? ==> !bufs[i].locked
      ensures DONE !in bits ==> bufs == old(bufs)
    {
      hide Inv;
      hide DriverKeeps;
      InvBounds(View());
      KeepsItself(View());
      status := status + bits;
      if DONE in bits {
        ghost var v0 := View();
        UnlockBuf(k1);
        InvBounds(View());
        ghost var v1 := View();
        UnlockBuf(k2);
        InvBounds(View());
        ghost var v2 := View();
        KeepsTransitive(v0, v1, v2);
        UnlockBuf(k3);
        InvBounds(View());
        KeepsTransitive(v0, v2, View());
      }
    }

    /** Anything the service layer and the callback may do between two steps of the driver: give buffers
        up, unlock buffers given up, set status bits, any number of times and in any order. */
    method Interleave()
      requires Valid()
      modifies this`inflight, this`returning, this`bufs, this`status
      ensures Valid() && DriverKeeps(old(View()), View()) && old(status) <= status
    {
      hide Inv;
      var n: nat :| n >= 0;
      while n > 0
        invariant Valid() && DriverKeeps(old(View()), View()) && old(status) <= status
        decreases n
      {
        var choice: int := *;
        if choice == 0 && inflight.Keys != {} {
          var a :| a in inflight.Keys;
          ReturnedInv(View(), a);
          inflight := inflight - {a};
          returning := returning + {a};
        } else if choice == 1 && returning != {} {
          var a :| a in returning;
          UnlockBuf(Some(a));
        } else {
          var bit: Status := *;
          status := status + {bit};
        }
        n := n - 1;
      }
    }

    // -------------------------------------------------------------- the driver's steps

    /** No slot has a buffer left. */
    ghost predicate AllFreed()
      reads this`bufs
    {
      forall i :: 0 <= i < |bufs| ==> bufs[i].buf.None?
    }

    /** test_and_set_bit_lock on a slot, with interleaving before it. */
    method TryLock(i: nat) returns (won: bool)
      requires Valid() && i < NUM_SVC_BUFS && held.None?
      modifies this`inflight, this`returning, this`bufs, this`status, this`held
      ensures Valid() && SameBuffers(old(View()), View()) && (!won ==> held.None?)
      ensures won ==> held == Some(i) && bufs[i].buf.Some?
      ensures old(|bufs|) == NUM_SVC_BUFS && (old(!bufs[i].locked) ==> won)
      ensures old(AllFreed()) ==> !won && AllFreed()
      ensures !won ==> |bufs| == |old(bufs)| && forall j :: 0 <= j < |bufs| && !old(bufs[j].locked) ==> !bufs[j].locked
    {
      hide Inv;
      Interleave();
      InvBounds(View());
      won := !bufs[i].locked;
      if won {
        LockedInv(View(), i);
        bufs := bufs[i := bufs[i].(locked := true)];
        held := Some(i);
      }
    }

    /** stratix10_svc_send of DATA_SUBMIT for the locked slot: the message is queued, or an error. */
    method SvcSubmit(i: nat, data: seq<Byte>) returns (ret: int)
      requires Valid() && held == Some(i) && data <= pool[bufs[i].buf.value]
      modifies this`inflight, this`held, this`submitted
      ensures Valid() && ret <= 0
      ensures ret == 0 ==> View() == Submitted(old(View()), data) && submitted == old(submitted) + [data]
      ensures ret < 0 ==> View() == old(View()) && submitted == old(submitted)
    {
      var accepted: bool := *;
      if !accepted {
        return -EFAULT;
      }
      SubmittedInv(View(), data);
      inflight := inflight[bufs[i].buf.value := data];
      submitted := submitted + [data];
      held := None;
      ret := 0;
    }

    /** Locks a free buffer, fills it and queues it. Never returns 0. */
    method SendBuf(data: seq<Byte>) returns (ret: int, ghost refused: bool)
      requires Valid() && held.None? && data != []
      modifies this
      ensures Valid() && held.None? && SameBuffers(old(View()), View())
      ensures ret != 0 && (ret < 0 ==> submitted == old(submitted))
      ensures ret > 0 ==> ret == (if |data| < SVC_BUF_SIZE then |data| else SVC_BUF_SIZE)
      ensures ret > 0 ==> submitted == old(submitted) + [data[..ret]]
      ensures old(AllFreed()) ==> ret == -ENOBUFS && AllFreed()
      ensures ret < 0 && !refused ==> ret == -ENOBUFS && forall i :: 0 <= i < |old(bufs)| ==> old(bufs[i].locked)
    {
      hide Inv;
      hide DriverKeeps;
      hide HeldIsOurs;
      var i, won := 0, false;
      while i < NUM_SVC_BUFS
        invariant 0 <= i <= NUM_SVC_BUFS && Valid() && held.None? && !won && (old(AllFreed()) ==> AllFreed())
        invariant SameBuffers(old(View()), View()) && submitted == old(submitted)
        invariant |bufs| == |old(bufs)| && forall j :: 0 <= j < |bufs| && !old(bufs[j].locked) ==> !bufs[j].locked
        invariant forall j :: 0 <= j < i && j < |bufs| ==> old(bufs[j].locked)
        decreases NUM_SVC_BUFS - i
      {
        won := TryLock(i);
        if won {
          break;
        }
        i := i + 1;
      }
      refused := false;
      if !won {
        InvBounds(View());
        return -ENOBUFS, false;
      }
      var xferSz := if |data| < SVC_BUF_SIZE then |data| else SVC_BUF_SIZE;
      ret := FillAndSubmit(i, data[..xferSz]);
      refused := ret != 0;
      if ret == 0 {
        ret := xferSz;
      }
    }

    /** Copies a payload into the slot held and queues it, giving the slot up when that fails. */
    method FillAndSubmit(i: nat, data: seq<Byte>) returns (ret: int)
      requires Valid() && held == Some(i) && |data| <= SVC_BUF_SIZE
      modifies this
      ensures Valid() && held.None? && SameBuffers(old(View()), View()) && ret <= 0
      ensures submitted == if ret == 0 then old(submitted) + [data] else old(submitted)
    {
      hide Inv;
      hide DriverKeeps;
      hide HeldIsOurs;
      HeldFacts(View(), i);
      var svcBuf := bufs[i].buf.value;
      ghost var v0 := View();
      Interleave();
      KeepsHeld(v0, View(), i);
      FilledInv(View(), data);
      pool := pool[svcBuf := data + pool[svcBuf][|data|..]];
      ghost var v1 := View();
      assert SameBuffers(v0, v1);
      assert data <= pool[svcBuf];
      Interleave();
      KeepsHeld(v1, View(), i);
      ghost var v2 := View();
      assert SameBuffers(v0, v2);
      ret := SvcSubmit(i, data);
      if ret < 0 {
        Interleave();
        KeepsHeld(v2, View(), i);
        GivenUpInv(View());
        bufs := bufs[i := bufs[i].(locked := false)];
        held := None;
      }
    }

    /** Frees every buffer that is not in use; true when none is left. */
    method FreeBuffers() returns (all: bool)
      requires Valid() && held.None?
      modifies this`inflight, this`returning, this`bufs, this`status, this`held, this`pool
      ensures Valid() && held.None?
      ensures (all <==> AllFreed()) && (old(AllFreed()) ==> all)
      ensures all ==> pool == map[] && inflight == map[]
      ensures forall i :: 0 <= i < NUM_SVC_BUFS ==> bufs[i].buf == old(bufs[i].buf) || bufs[i].buf.None?
    {
      hide Inv;
      InvBounds(View());
      var numFree, i := 0, 0;
      ghost var inUse := 0;
      while i < NUM_SVC_BUFS
        invariant 0 <= numFree <= i <= NUM_SVC_BUFS && Valid() && held.None? && |bufs| == NUM_SVC_BUFS
        invariant numFree < i ==> 0 <= inUse < i && bufs[inUse].buf.Some?
        invariant numFree == i ==> forall j :: 0 <= j < i ==> bufs[j].buf.None?
        invariant forall j :: 0 <= j < NUM_SVC_BUFS ==> bufs[j].buf == old(bufs[j].buf) || bufs[j].buf.None?
        decreases NUM_SVC_BUFS - i
      {
        if bufs[i].buf.None? {
          numFree := numFree + 1;
        } else {
          var won := TryLock(i);
          if won {
            FreedInv(View());
            HeldFacts(View(), i);
            pool := pool - {bufs[i].buf.value};
            bufs := bufs[i := SvcBuf(None, true)];
            held := None;
            numFree := numFree + 1;
          } else {
            inUse := i;
          }
        }
        i := i + 1;
      }
      all := numFree == NUM_SVC_BUFS;
      if all { NothingLeft(View()); }
    }

    method FreeBufferCount() returns (n: nat)
      requires Valid()
      ensures n <= NUM_SVC_BUFS && (n == NUM_SVC_BUFS <==> AllFreed())
    {
      n := 0;
      for i := 0 to NUM_SVC_BUFS
        invariant n <= i && (n == i <==> forall j :: 0 <= j < i ==> bufs[j].buf.None?)
      {
        if bufs[i].buf.None? {
          n := n + 1;
        }
      }
    }

    /** Waits for the callback, unless it has reported already, and takes note of one status bit. */
    method AwaitStatus() returns (ret: int, ghost look: Look)
      requires Valid() && held.None?
      modifies this`inflight, this`returning, this`bufs, this`status
      ensures Valid() && held.None? && SameBuffers(old(View()), View())
      ensures ret == Answer(look) && status == look.bits - Noted(look.bits)
      ensures old(status) <= look.bits && (old(status) != {} ==> look.signalled)
    {
      hide Inv;
      hide DriverKeeps;
      hide SameBuffers;
      var signalled := true;
      if status == {} {
        signalled := *;
      }
      ghost var v0 := View();
      Interleave();
      KeepsBuffers(v0, View());
      look := Look(status, signalled);
      if DONE in status {
        status := status - {DONE};
        return 0, look;
      }
      if SUBMITTED in status {
        status := status - {SUBMITTED};
        return 0, look;
      }
      if ERROR in status {
        status := status - {ERROR};
        return -EFAULT, look;
      }
      ret := if signalled then 0 else -ETIMEDOUT;
    }

    /** Sends an image and then takes every buffer back. `fuel` bounds the rounds looked at: None means
        the driver is still going. Whatever the service layer and the callback do, what this call has
        submitted is at every moment a prefix of the image, and 0 is returned only with the whole image
        submitted, every buffer freed and nothing left in the queue. `looks` are the reports it has waited for
        and `claim` is the answer to its last claim message: the call ends with the first of them that is an
        error, and with 0 only if none is. A call with data that finds the buffers
        freed, as every call after one that returned 0 does, never returns; without data it returns 0. */
    method OpsWrite(image: seq<Byte>, fuel: nat)
      returns (result: Option<int>, ghost looks: seq<Look>, ghost claim: int)
      requires Valid() && held.None?
      modifies this
      ensures Valid() && old(submitted) <= submitted && Flatten(submitted[|old(submitted)|..]) <= image
      ensures result.Some? ==> result.value <= 0 && held.None?
      ensures result.Some? ==>
        result.value == if claim < 0 then claim else if looks == [] then 0 else Answer(looks[|looks| - 1])
      ensures forall i :: 0 <= i < |looks| - 1 ==> Answer(looks[i]) == 0
      ensures claim < 0 && looks != [] ==> Answer(looks[|looks| - 1]) == 0
      ensures result == Some(0) ==> Flatten(submitted[|old(submitted)|..]) == image
      ensures result == Some(0) ==> AllFreed() && pool == map[] && inflight == map[]
      ensures old(AllFreed()) && image != [] ==> result == None && submitted == old(submitted)
      ensures old(AllFreed()) && image == [] ==> result == Some(0) && submitted == old(submitted)
    {
      hide Inv;
      hide SameBuffers;
      hide Flatten;
      hide DriverKeeps;
      hide AllFreed;
      FlattenEmpty();
      ghost var sentBefore := submitted;
      ghost var done: seq<seq<Byte>> := [];
      var buf, ret, rounds := image, 0, fuel;
      var failed := false;
      looks, claim := [], 0;
      while !failed
        invariant Valid() && held.None? && submitted == sentBefore + done && Flatten(done) + buf == image && ret <= 0
        invariant failed <==> ret < 0
        invariant claim == 0 && forall i :: 0 <= i < |looks| - 1 ==> Answer(looks[i]) == 0
        invariant ret == if looks == [] then 0 else Answer(looks[|looks| - 1])
        invariant old(AllFreed()) ==> AllFreed() && done == [] && !failed && ret == 0
        decreases rounds, !failed
      {
        var numFree := FreeBufferCount();
        if buf == [] && numFree == NUM_SVC_BUFS {
          break;
        }
        if rounds == 0 {
          return None, looks, claim;
        }
        rounds := rounds - 1;
        if buf != [] {
          var sent, refused := SendBuf(buf);
          if sent < 0 {
            continue;
          }
          PrefixGrows(done, buf, sent, image);
          done := done + [buf[..sent]];
          buf := buf[sent..];
        } else {
          var all := FreeBuffers();
          if all {
            return Some(0), looks, claim;
          }
          var answer: int :| answer <= 0;
          claim := answer;
          if answer < 0 {
            ret := answer;
            break;
          }
        }
        ghost var look;
        ret, look := AwaitStatus();
        looks := looks + [look];
        failed := ret < 0;
      }
      var all := FreeBuffers();
      result := Some(ret);
    }
  }

  lemma ReturningHasSlot(s: Shared, a: nat)
    requires Inv(s) && a in s.returning
    ensures exists j :: 0 <= j < |s.bufs| && s.bufs[j].buf == Some(a)
    ensures forall i, j :: 0 <= i < j < |s.bufs| && s.bufs[i].buf.Some? ==> s.bufs[i].buf != s.bufs[j].buf
  {
    assert Owned(s, a);
  }

  /** Interleaving and locking never change which buffer a slot has, nor free or allocate memory. */
  ghost predicate SameBuffers(s: Shared, t: Shared) {
    |t.bufs| == |s.bufs| && t.pool.Keys == s.pool.Keys &&
    forall i :: 0 <= i < |s.bufs| ==> t.bufs[i].buf == s.bufs[i].buf
  }

  lemma InvBounds(s: Shared)
    requires Inv(s)
    ensures |s.bufs| == NUM_SVC_BUFS
  {
  }

  lemma HeldFacts(s: Shared, i: nat)
    requires Inv(s) && s.held == Some(i)
    ensures i < |s.bufs| && s.bufs[i].buf.Some?
    ensures HeldIsOurs(s, i) && s.bufs[i].buf.value in s.pool && |s.pool[s.bufs[i].buf.value]| == SVC_BUF_SIZE
    ensures |s.bufs| == NUM_SVC_BUFS
  {
  }

  lemma NothingLeft(s: Shared)
    requires Inv(s) && forall i :: 0 <= i < |s.bufs| ==> s.bufs[i].buf.None?
    ensures s.pool == map[] && s.inflight == map[]
  {
    assert forall a :: a in s.pool ==> Owned(s, a);
  }
}
