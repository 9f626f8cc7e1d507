/** The Zynq loader's DMA queue, drivers/fpga/zynq-fpga.c: ops_write queues the first transfers, the
    interrupt handler queues the rest as the hardware drains its queue. */
module Zynq {
  import opened Common

  const EINVAL: int := 22
  const ENOMEM: int := 12
  const EIO: int := 5

  /** An entry of the scatter table, and a DMA-mapped piece of it. */
  datatype Chunk = Chunk(offset: nat, length: nat)
  datatype Mapped = Mapped(addr: nat, len: nat)

  /** What is written to DMA_SRC_ADDR and DMA_SRC_LEN for one transfer. */
  datatype Command = Command(src: nat, words: nat)

  /** The interrupt status bits the driver looks at; they stay set until written back. */
  datatype IntStatus = IntStatus(error: bool, dmaDone: bool, dpDone: bool)

  /** zynq_fpga_set_irq: nothing, DMA done or DMA and PCAP done; errors are enabled with either. */
  datatype IrqMask = Off | DmaDone | DmaAndPcapDone

  predicate Raised(status: IntStatus, mask: IrqMask) {
    match mask
    case Off => false
    case DmaDone => status.error || status.dmaDone
    case DmaAndPcapDone => status.error || status.dpDone
  }

  /** `addr | DMA_SRC_LAST_TRANSFER`. */
  function Flagged(addr: nat): nat {
    if addr % 2 == 0 then addr + 1 else addr
  }

  predicate IsLast(c: Command) {
    c.src % 2 == 1
  }

  predicate Aligned(elms: seq<Mapped>) {
    forall i :: 0 <= i < |elms| ==> elms[i].addr % 8 == 0 && elms[i].len % 4 == 0
  }

  function Encode(elms: seq<Mapped>, i: nat): Command
    requires i < |elms|
  {
    Command(if i + 1 == |elms| then Flagged(elms[i].addr) else elms[i].addr, elms[i].len / 4)
  }

  /** The first k transfers of a mapped table, as written to the hardware. */
  function Commands(elms: seq<Mapped>, k: nat): (r: seq<Command>)
    requires k <= |elms|
    ensures |r| == k
    ensures k == 0 ==> r == []
  {
    seq(k, i requires 0 <= i < k => Encode(elms, i))
  }

  /** What the hardware fetches for a command. */
  function Decode(c: Command): Mapped {
    Mapped(c.src - c.src % 2, 4 * c.words)
  }

  lemma CommandsPush(elms: seq<Mapped>, k: nat)
    requires k < |elms|
    ensures Commands(elms, k + 1) == Commands(elms, k) + [Encode(elms, k)]
  {
  }

  lemma Doubled(k: nat)
    ensures 2 * k % 2 == 0 && (2 * k + 1) % 2 == 1
  {
  }

  lemma WholeUnits(addr: nat)
    requires addr % 8 == 0
    ensures addr == 8 * (addr / 8)
  {
  }

  lemma EvenAddress(addr: nat)
    requires addr % 8 == 0
    ensures addr % 2 == 0 && (addr + 1) % 2 == 1
  {
    WholeUnits(addr);
    var k: nat := 4 * (addr / 8);
    assert addr == 2 * k;
    Doubled(k);
  }

  lemma WholeLength(len: nat)
    requires len % 4 == 0
    ensures 4 * (len / 4) == len
  {
  }

  lemma DecodeOne(elms: seq<Mapped>, i: nat)
    requires Aligned(elms) && i < |elms|
    ensures Decode(Encode(elms, i)) == elms[i]
    ensures IsLast(Encode(elms, i)) <==> i + 1 == |elms|
  {
    EvenAddress(elms[i].addr);
    WholeLength(elms[i].len);
  }

  /** What was queued, read back as the hardware reads it: the mapped pieces once each in order, and the
      last-transfer flag on the final piece of the table and on no other. */
  lemma QueuedInOrder(elms: seq<Mapped>, k: nat)
    requires Aligned(elms) && k <= |elms|
    ensures seq(k, i requires 0 <= i < k => Decode(Commands(elms, k)[i])) == elms[..k]
    ensures forall i :: 0 <= i < k ==> (IsLast(Commands(elms, k)[i]) <==> i + 1 == |elms|)
  {
    forall i: nat | i < k
      ensures Decode(Commands(elms, k)[i]) == elms[i] && (IsLast(Commands(elms, k)[i]) <==> i + 1 == |elms|)
    {
      DecodeOne(elms, i);
    }
  }

  /** A flagged command means the whole table was queued. */
  lemma FlagMeansAll(elms: seq<Mapped>, k: nat)
    requires Aligned(elms) && 0 < k <= |elms| && IsLast(Commands(elms, k)[k - 1])
    ensures k == |elms|
  {
    DecodeOne(elms, k - 1);
  }

  /** How the end of a transfer is judged, from what remains to be queued and what the hardware reported. */
  function Verdict(curSg: Option<nat>, intr: IntStatus): int {
    if intr.error then -EIO else if curSg.Some? || !intr.dpDone then -EIO else 0
  }

  /** The driver clears what is left before it judges. That changes the verdict exactly when pieces are left
      and D_P_DONE is reported without an error: a failure is taken for a success. */
  lemma EarlyDoneAccepted(left: Option<nat>, intr: IntStatus)
    ensures Verdict(left, intr) != Verdict(None, intr) <==> left.Some? && intr.dpDone && !intr.error
    ensures Verdict(left, intr) != Verdict(None, intr) ==> Verdict(left, intr) == -EIO && Verdict(None, intr) == 0
  {
  }

  /** What the hardware does between two looks of the driver at it: the reports it raises, and how many more
      commands its queue takes before it answers "full". */
  datatype Event = Event(error: bool, dmaDone: bool, dpDone: bool, room: nat)

  /** No report that would raise the interrupt the driver waits for while pieces are left. */
  predicate Quiet(events: seq<Event>) {
    forall i :: 0 <= i < |events| ==> !events[i].error && !events[i].dmaDone
  }

  /** The queue fills up before all of n pieces are in it, and D_P_DONE is all that is reported after. */
  predicate StopsShort(events: seq<Event>, room: nat, n: nat) {
    room < n && Quiet(events) && ReportsDone(events)
  }

  predicate ReportsDone(events: seq<Event>) {
    exists i :: 0 <= i < |events| && events[i].dpDone
  }

  class Loader {
    var elms: seq<Mapped>
    var dmaElm: nat
    var curSg: Option<nat>
    var mask: IrqMask
    var status: IntStatus
    var completed: bool
    var mapped: bool
    var clockOn: bool
    /** Every command written to the DMA since the table was mapped. */
    var commands: seq<Command>
    /** What the hardware has reported since the transfer started. */
    ghost var errorSeen: bool
    ghost var doneSeen: bool

    /** Reports stay in the status register until the driver reads it. */
    ghost predicate Reported()
      reads this`status, this`errorSeen, this`doneSeen
    {
      status.error == errorSeen && status.dpDone == doneSeen
    }

    /** The driver is in the middle of a transfer: what is queued is a prefix of the table; while some
        of it remains the DMA-done interrupt is enabled and when none remains only the final one is.
        The handler completes, with interrupts off, only when an error was reported or all is queued and
        D_P_DONE has been. */
    ghost predicate Running()
      reads this
    {
      elms != [] && |commands| <= |elms| && commands == Commands(elms, |commands|) &&
      (curSg.Some? ==> curSg.value == dmaElm == |commands| && |commands| < |elms|) &&
      (curSg.None? ==> |commands| == |elms|) &&
      if completed then mask == Off && (status.error || (|commands| == |elms| && status.dpDone))
      else mask == if curSg.Some? then DmaDone else DmaAndPcapDone
    }

    constructor ()
      ensures !mapped && !clockOn && mask == Off
    {
      elms, dmaElm, curSg, mask, commands := [], 0, None, Off, [];
      status, completed, mapped, clockOn := IntStatus(false, false, false), false, false, false;
      errorSeen, doneSeen := false, false;
    }

    /** zynq_step_dma: feeds the queue until it is full or nothing is left. The status register answers
        "full" after `room` commands. */
    method StepDma(room: nat)
      requires elms != [] && |commands| < |elms| && commands == Commands(elms, |commands|)
      requires curSg == Some(dmaElm) && dmaElm == |commands| && !completed
      requires dmaElm == 0 || mask == DmaDone
      modifies this`dmaElm, this`curSg, this`mask, this`commands
      ensures Running() && old(commands) <= commands
      ensures |commands| == if |old(commands)| + room < |elms| then |old(commands)| + room else |elms|
    {
      var first, took := dmaElm == 0, 0;
      while curSg.Some?
        invariant mask == old(mask)
        invariant |commands| <= |elms| && commands == Commands(elms, |commands|) && old(commands) <= commands
        invariant |commands| == |old(commands)| + took && took <= room
        invariant curSg.Some? ==> curSg.value == dmaElm == |commands| && |commands| < |elms|
        invariant curSg.None? ==> |commands| == |elms|
        decreases |elms| - |commands|
      {
        if took == room {
          break;
        }
        var addr, len := elms[curSg.value].addr, elms[curSg.value].len;
        CommandsPush(elms, curSg.value);
        if dmaElm + 1 == |elms| {
          addr := Flagged(addr);
          curSg := None;
        } else {
          curSg := Some(curSg.value + 1);
          dmaElm := dmaElm + 1;
        }
        commands := commands + [Command(addr, len / 4)];
        took := took + 1;
      }
      if first && curSg.Some? {
        mask := DmaDone;
      } else if curSg.None? {
        mask := DmaAndPcapDone;
      }
    }

    /** zynq_fpga_isr, run when an enabled interrupt is raised. */
    method Isr(room: nat)
      requires Running() && Raised(status, mask) && Reported()
      modifies this`dmaElm, this`curSg, this`mask, this`commands, this`status, this`completed
      ensures Running() && old(commands) <= commands && Reported()
      ensures !completed ==> status == old(status).(dmaDone := false)
      ensures completed ==> status == old(status) && mask == Off && commands == old(commands)
      ensures !completed <==> old(!status.error && status.dmaDone && curSg.Some?)
    {
      if !status.error && status.dmaDone && curSg.Some? {
        status := status.(dmaDone := false);
        StepDma(room);
        return;
      }
      mask := Off;
      completed := true;
    }

    /** The hardware raises status bits. D_P_DONE follows the command that carries the last-transfer
        flag; `honest` says that the hardware keeps to that. */
    method Hardware(e: Event, honest: bool)
      requires Running() && Aligned(elms) && Reported()
      modifies this`status, this`errorSeen, this`doneSeen
      ensures Reported() && (old(errorSeen) ==> errorSeen) && (old(doneSeen) ==> doneSeen)
      ensures status.error == (old(status.error) || e.error) && status.dmaDone == (old(status.dmaDone) || e.dmaDone)
      ensures !honest ==> status.dpDone == (old(status.dpDone) || e.dpDone)
      ensures honest && status.dpDone && !old(status.dpDone) ==> |commands| == |elms|
    {
      var dpDone := e.dpDone && (!honest || (commands != [] && IsLast(commands[|commands| - 1])));
      if dpDone && honest {
        FlagMeansAll(elms, |commands|);
      }
      status := IntStatus(status.error || e.error, status.dmaDone || e.dmaDone, status.dpDone || dpDone);
      errorSeen, doneSeen := errorSeen || e.error, doneSeen || dpDone;
    }

    /** The driver waits for the DMA to take more and nothing but D_P_DONE has been reported. */
    ghost predicate Waiting()
      reads this`completed, this`mask, this`curSg, this`status
    {
      !completed && mask == DmaDone && curSg.Some? && !status.error && !status.dmaDone
    }

    /** A sequence of hardware steps, each followed by the interrupt handler when it raises an enabled
        interrupt. A driver that waits for the DMA goes on waiting through quiet ones. */
    method Interrupts(events: seq<Event>, honest: bool)
      requires Running() && Aligned(elms) && Reported()
      requires honest && status.dpDone ==> |commands| == |elms|
      modifies this`dmaElm, this`curSg, this`mask, this`commands, this`status, this`completed
      modifies this`errorSeen, this`doneSeen
      ensures Running() && Reported() && (old(completed) ==> completed && commands == old(commands))
      ensures honest && status.dpDone ==> |commands| == |elms|
      ensures old(Waiting()) && Quiet(events) ==> Waiting() && commands == old(commands)
      ensures old(Waiting()) && Quiet(events) && !honest ==>
        status.dpDone == (old(status.dpDone) || ReportsDone(events))
    {
      for i := 0 to |events|
        invariant Running() && Reported() && (old(completed) ==> completed && commands == old(commands))
        invariant honest && status.dpDone ==> |commands| == |elms|
        invariant old(Waiting()) && Quiet(events) ==> Waiting() && commands == old(commands)
        invariant old(Waiting()) && Quiet(events) && !honest ==>
          status.dpDone == (old(status.dpDone) || ReportsDone(events[..i]))
      {
        assert ReportsDone(events[..i + 1]) <==> ReportsDone(events[..i]) || events[i].dpDone by {
          ReportsPush(events, i);
        }
        Hardware(events[i], honest);
        if Raised(status, mask) {
          Isr(events[i].room);
        }
      }
      assert events[..|events|] == events;
    }

    /** The check of every entry before anything is mapped. */
    method CheckTable(table: seq<Chunk>) returns (ok: bool)
      ensures ok <==> WellPlaced(table)
    {
      for i := 0 to |table|
        invariant WellPlaced(table[..i])
      {
        if table[i].offset % 8 != 0 || table[i].length % 4 != 0 {
          return false;
        }
        assert table[..i + 1] == table[..i] + [table[i]];
      }
      assert table[..|table|] == table;
      ok := true;
    }

    /** zynq_fpga_ops_write on a table; `answer` is what dma_map_sg makes of it and `clkRet` the answer
        of clk_enable. The queue takes `room` commands at first, `before` happens during the wait and `after`
        until the driver takes the lock. `timeLeft` is what wait_for_completion_timeout returns: whether the
        handler completed in time. Success on completion means the whole table was queued, whatever the
        hardware does. Success after a timeout rests on D_P_DONE alone, and means it for hardware that is
        `honest` about it; for hardware that is not, pieces are left in every run in which the queue fills up
        and D_P_DONE is all that is reported. */
    method OpsWrite(table: seq<Chunk>, answer: seq<Mapped>, clkRet: int, room: nat, before: seq<Event>,
                    after: seq<Event>, honest: bool)
      returns (err: int, ghost timeLeft: bool)
      requires !mapped && !clockOn && mask == Off
      requires WellPlaced(table) ==> Aligned(answer)
      requires clkRet <= 0
      modifies this
      ensures !mapped && !clockOn && mask == Off && err <= 0
      ensures (exists i :: 0 <= i < |table| && (table[i].offset % 8 != 0 || table[i].length % 4 != 0)) ==>
        err == -EINVAL && commands == []
      ensures (forall i :: 0 <= i < |table| ==> table[i].offset % 8 == 0 && table[i].length % 4 == 0) ==>
        WellPlaced(table) && (answer == [] ==> err == -ENOMEM) && (answer != [] && clkRet != 0 ==> err == clkRet)
      ensures err == 0 ==> answer != [] && clkRet == 0
      ensures WellPlaced(table) && answer != [] && clkRet == 0 ==>
        (err == 0 <==> doneSeen && !errorSeen) && (err != 0 ==> err == -EIO)
      ensures |commands| <= |answer| && commands == Commands(answer, |commands|)
      ensures err == 0 && (timeLeft || honest) ==> |commands| == |answer|
      ensures timeLeft ==> (err == 0 <==> !errorSeen)
      ensures WellPlaced(table) && clkRet == 0 && !honest && StopsShort(before + after, room, |answer|) ==>
        err == 0 && !timeLeft && |commands| == room
    {
      hide Commands; hide Quiet; hide ReportsDone;
      timeLeft := false;
      commands := [];
      NoCommands(answer);
      var ok := CheckTable(table);
      if !ok {
        return -EINVAL, false;
      }
      elms := answer;
      if elms == [] {
        return -ENOMEM, false;
      }
      mapped := true;
      if clkRet != 0 {
        mapped := false;
        return clkRet, false;
      }
      clockOn := true;
      err, timeLeft := Transfer(room, before, after, honest);
      clockOn := false;
      mapped := false;
    }

    /** The part of zynq_fpga_ops_write with the clock on. Interrupts may go on after the wait until the
        driver takes the lock. */
    method Transfer(room: nat, before: seq<Event>, after: seq<Event>, honest: bool)
      returns (err: int, ghost timeLeft: bool)
      requires elms != [] && commands == [] && Aligned(elms) && mask == Off
      modifies this`dmaElm, this`curSg, this`mask, this`commands, this`status, this`completed
      modifies this`errorSeen, this`doneSeen
      ensures mask == Off && err == if doneSeen && !errorSeen then 0 else -EIO
      ensures |commands| <= |elms| && commands == Commands(elms, |commands|)
      ensures err == 0 && (timeLeft || honest) ==> |commands| == |elms|
      ensures timeLeft ==> (err == 0 <==> !errorSeen)
      ensures !honest && StopsShort(before + after, room, |elms|) ==> err == 0 && !timeLeft && |commands| == room
    {
      hide Commands; hide Quiet; hide ReportsDone;
      NoCommands(elms);
      BothQuiet(before, after);
      status := IntStatus(false, false, false);
      errorSeen, doneSeen := false, false;
      completed := false;
      dmaElm := 0;
      curSg := Some(0);
      StepDma(room);
      Interrupts(before, honest);
      timeLeft := completed;
      Interrupts(after, honest);
      mask := Off;
      curSg := None;
      var intr := status;
      status := IntStatus(false, false, false);
      err := Verdict(curSg, intr);
    }
  }

  /** Entries the DMA can take: 64-bit aligned, whole words. */
  predicate WellPlaced(table: seq<Chunk>) {
    forall i :: 0 <= i < |table| ==> table[i].offset % 8 == 0 && table[i].length % 4 == 0
  }

  lemma ReportsPush(events: seq<Event>, i: nat)
    requires i < |events|
    ensures ReportsDone(events[..i + 1]) <==> ReportsDone(events[..i]) || events[i].dpDone
  {
    assert forall k :: 0 <= k < i ==> events[..i][k] == events[..i + 1][k];
    assert events[..i + 1][i] == events[i];
  }

  lemma BothQuiet(a: seq<Event>, b: seq<Event>)
    ensures Quiet(a + b) <==> Quiet(a) && Quiet(b)
    ensures ReportsDone(a + b) <==> ReportsDone(a) || ReportsDone(b)
  {
    assert forall i :: 0 <= i < |a| ==> a[i] == (a + b)[i];
    assert forall i :: 0 <= i < |b| ==> b[i] == (a + b)[|a| + i];
  }

  lemma NoCommands(elms: seq<Mapped>)
    ensures Commands(elms, 0) == []
  {
  }
}
