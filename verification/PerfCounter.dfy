/** Performance counters of the management engine, drivers/fpga/dfl-fme-perf.c: reading a running 64-bit
    counter with 32-bit accesses, and sharing the fabric counters between events of one port. */
module PerfCounter {

  const U32: nat := 0x1_0000_0000
  const U64: nat := 0x1_0000_0000_0000_0000

  function Low(x: nat): nat { x % U32 }
  function High(x: nat): nat { x / U32 }

  /** readq as two 32-bit reads, the low half first. */
  function Split(atLow: nat, atHigh: nat): nat {
    High(atHigh) * U32 + Low(atLow)
  }

  lemma Halves(x: nat)
    ensures x == High(x) * U32 + Low(x) && Low(x) < U32
  {
  }

  lemma HighMonotone(x: nat, y: nat)
    requires x <= y
    ensures High(x) <= High(y)
  {
  }

  /** A round of the retry loop that ends: the counter was `first` at the low read, `second` at the high
      read and `third` at the extra read. The value returned is one the counter had between the first and
      the last read, and the very value it had at the first unless it ran a whole low half further. */
  lemma SplitReadSound(first: nat, second: nat, third: nat)
    requires first <= second <= third && Low(first) <= Low(third)
    ensures first <= Split(first, second) <= third
    ensures third - first < U32 ==> Split(first, second) == first
  {
    Halves(first);
    Halves(second);
    Halves(third);
    HighMonotone(first, second);
    HighMonotone(second, third);
  }

  /** A round that is repeated has seen a carry out of the low half. */
  lemma RetryMeansCarry(first: nat, third: nat)
    requires first <= third && Low(first) > Low(third)
    ensures High(first) < High(third)
  {
    Halves(first);
    Halves(third);
  }

  /** Reading the high half first would not do: the same check passes on a value far below every value the
      counter had. */
  lemma HighFirstFails() returns (first: nat, second: nat, third: nat)
    ensures first <= second <= third && third - first < U32
    ensures Low(second) <= Low(third) && Split(second, first) < first
  {
    first, second, third := U32 - 1, U32, U32;
  }

  class Counter {
    var value: nat

    constructor ()
      ensures value == 0
    {
      value := 0;
    }

    /** The hardware counts on between two reads. */
    method Count()
      requires value < U64
      modifies this
      ensures old(value) <= value < U64
    {
      var next: nat :| value <= next && (next == value || next < U64);
      value := next;
    }

    /** fme_read_perf_cntr_reg on a platform that splits readq. `round` is the counter when the last
        round began. The loop ends because each further round takes the counter past another 2^32. */
    method Read() returns (v: nat, ghost round: nat)
      requires value < U64
      modifies this
      ensures old(value) <= round <= v <= value < U64
      ensures value - round < U32 ==> v == round
    {
      v, round := 0, value;
      var again := true;
      while again
        invariant old(value) <= value < U64
        invariant !again ==> old(value) <= round <= v <= value && (value - round < U32 ==> v == round)
        decreases U64 - value, again
      {
        Count();
        round := value;
        var lowHalf := Low(value);
        Count();
        ghost var second := value;
        v := High(value) * U32 + lowHalf;
        Count();
        var low := Low(value);
        again := Low(v) > low;
        LowOfSplit(round, second);
        if Low(round) <= low {
          SplitReadSound(round, second, value);
        } else {
          RetryMeansCarry(round, value);
        }
      }
    }
  }

  lemma LowOfSplit(atLow: nat, atHigh: nat)
    ensures Low(Split(atLow, atHigh)) == Low(atLow)
  {
  }

  // ---------------------------------------------------------------- the fabric counters

  const EINVAL: int := 22
  const EOPNOTSUPP: int := 95
  const ROOT: nat := 0xFF

  /** The fabric counter set: the user count, the port it is set to and what its control register holds
      (None when the port filter is off); `users` are the ports of the events running. */
  class Fabric {
    var fabUsers: nat
    var fabPortId: nat
    var filter: int
    ghost var users: multiset<nat>

    /** fme_perf_setup_hardware: the mode the control register is found in. */
    constructor (filter: int)
      requires filter == -1 || 0 <= filter < ROOT
      ensures Valid() && users == multiset{} && this.filter == filter
    {
      this.filter := filter;
      fabUsers := 0;
      fabPortId := if filter == -1 then ROOT else filter;
      users := multiset{};
    }

    /** All running events are of one port, the one the hardware counts. */
    ghost predicate Valid()
      reads this
    {
      fabUsers == |users| && (forall p :: p in users ==> p == fabPortId) &&
      filter == if fabPortId == ROOT then -1 else fabPortId
    }

    /** fabric_event_init of a supported event. */
    method Init(portId: nat) returns (ret: int)
      requires Valid()
      modifies this
      ensures Valid()
      ensures ret == if old(users) == multiset{} || portId == old(fabPortId) then 0 else -EOPNOTSUPP
      ensures users == if ret == 0 then old(users) + multiset{portId} else old(users)
      ensures old(users) != multiset{} ==> fabPortId == old(fabPortId) && filter == old(filter)
      ensures ret == 0 ==> fabPortId == portId
    {
      if fabUsers > 0 && fabPortId != portId {
        return -EOPNOTSUPP;
      }
      users := users + multiset{portId};
      fabUsers := fabUsers + 1;
      ret := 0;
      if fabPortId == portId {
        return;
      }
      fabPortId := portId;
      filter := if portId == ROOT then -1 else portId;
    }

    /** fabric_event_destroy of a running event. */
    method Destroy(portId: nat)
      requires Valid() && portId in users
      modifies this
      ensures Valid() && users == old(users) - multiset{portId} && fabPortId == old(fabPortId)
    {
      users := users - multiset{portId};
      fabUsers := fabUsers - 1;
    }
  }
}
