/** A secure firmware update from request to notification: the upload worker of
    drivers/fpga/fpga-image-load.c over the operations of drivers/fpga/intel-m10-bmc-sec-update.c and the
    flash lock of drivers/mfd/intel-m10-bmc-pmci.c. A cancel may arrive between any two steps. */
module SecUpdate {
  import opened Common
  import opened Packing
  import opened Pmci

  const EBUSY: int := 16
  const ENOMEM: int := 12
  const EAGAIN: int := 11
  const EINVAL: int := 22
  const EFAULT: int := 14
  const ENODEV: int := 19
  const WRITE_BLOCK_SIZE: nat := 0x4000

  datatype UploadErr = NONE | HW_ERROR | TIMEOUT | CANCELED | BUSY | INVALID_SIZE | RW_ERROR | WEAROUT
  datatype Progress = IDLE | RECEIVING | PREPARING | TRANSFERRING | PROGRAMMING
  datatype FwState = NORMAL | SEC_UPDATE_PREPARE | SEC_UPDATE_WRITE | SEC_UPDATE_PROGRAM

  const RSU_PROG_IDLE: nat := 0
  const RSU_PROG_PREPARE: nat := 1
  const RSU_PROG_READY: nat := 3
  const RSU_PROG_AUTHENTICATING: nat := 4
  const RSU_PROG_COPYING: nat := 5
  const RSU_PROG_UPDATE_CANCEL: nat := 6
  const RSU_PROG_PROGRAM_KEY_HASH: nat := 7
  const RSU_PROG_RSU_DONE: nat := 8

  const RSU_STAT_NORMAL: nat := 0
  const RSU_STAT_ERASE_FAIL: nat := 7
  const RSU_STAT_WEAROUT: nat := 8
  const RSU_STAT_NIOS_OK: nat := 0x80
  const RSU_STAT_USER_OK: nat := 0x81
  const RSU_STAT_FACTORY_OK: nat := 0x82

  predicate RsuStatusOk(status: nat) {
    status == RSU_STAT_NORMAL || status == RSU_STAT_NIOS_OK || status == RSU_STAT_USER_OK ||
    status == RSU_STAT_FACTORY_OK
  }

  predicate RsuProgressDone(prog: nat) {
    prog == RSU_PROG_IDLE || prog == RSU_PROG_RSU_DONE
  }

  predicate RsuProgressBusy(prog: nat) {
    prog == RSU_PROG_AUTHENTICATING || prog == RSU_PROG_COPYING || prog == RSU_PROG_UPDATE_CANCEL ||
    prog == RSU_PROG_PROGRAM_KEY_HASH
  }

  /** What one read of the doorbell and status registers shows; the device changes it as it likes. */
  datatype Doorbell = Doorbell(request: bool, prog: nat, status: nat)

  predicate RsuStartDone(d: Doorbell) {
    !d.request && (d.status == RSU_STAT_ERASE_FAIL || d.status == RSU_STAT_WEAROUT || !RsuProgressDone(d.prog))
  }

  /** One of the four status codes that stand for no error. */
  predicate GoodStatus(d: Option<Doorbell>) {
    d.Some? && d.value.status in {0, 0x80, 0x81, 0x82}
  }

  // ---------------------------------------------------------------- what a transfer leaves behind

  /** The answer to a write request. */
  function WriteAnswer(image: seq<Byte>, flags: nat, copied: bool, evtfd: int, memory: bool, imageCopied: bool,
                       ctx: int): int
  {
    if !copied then -EFAULT
    else if flags != 0 || image == [] || evtfd < 0 then -EINVAL
    else if !memory then -ENOMEM
    else if !imageCopied then -EFAULT
    else ctx
  }

  /** One write operation that succeeded. */
  datatype Block = Block(offset: nat, size: nat)

  /** Consecutive non-empty blocks from the start of an image of n bytes up to `end`. */
  predicate Tiled(blocks: seq<Block>, n: nat, end: nat) {
    end == Min(WRITE_BLOCK_SIZE * |blocks|, n) &&
    forall i :: 0 <= i < |blocks| ==>
      WRITE_BLOCK_SIZE * i < n &&
      blocks[i] == Block(WRITE_BLOCK_SIZE * i, Min(WRITE_BLOCK_SIZE, n - WRITE_BLOCK_SIZE * i))
  }

  lemma TiledPush(blocks: seq<Block>, n: nat, end: nat)
    requires Tiled(blocks, n, end) && end < n
    ensures Tiled(blocks + [Block(end, Min(WRITE_BLOCK_SIZE, n - end))], n, end + Min(WRITE_BLOCK_SIZE, n - end))
  {
  }

  /** What the port to the flash takes for a block: the FIFO's words, or the staging registers'. */
  function Delivered(bulk: bool, image: seq<Byte>, b: Block): seq<nat>
    requires b.offset + b.size <= |image|
  {
    if bulk then Fifo(image[b.offset..b.offset + b.size]) else Staged(image, b.offset, b.size)
  }

  function DeliveredAll(bulk: bool, image: seq<Byte>, blocks: seq<Block>): seq<nat>
    requires forall i :: 0 <= i < |blocks| ==> blocks[i].offset + blocks[i].size <= |image|
    decreases |blocks|
  {
    if blocks == [] then
      []
    else
      DeliveredAll(bulk, image, blocks[..|blocks| - 1]) + Delivered(bulk, image, blocks[|blocks| - 1])
  }

  lemma DeliveredPush(bulk: bool, image: seq<Byte>, blocks: seq<Block>, b: Block)
    requires forall i :: 0 <= i < |blocks| ==> blocks[i].offset + blocks[i].size <= |image|
    requires b.offset + b.size <= |image|
    ensures DeliveredAll(bulk, image, blocks + [b]) == DeliveredAll(bulk, image, blocks) + Delivered(bulk, image, b)
  {
    assert (blocks + [b])[..|blocks|] == blocks;
  }

  /** Full blocks are delivered as they are. */
  lemma {:induction false} FullBlocks(bulk: bool, image: seq<Byte>, blocks: seq<Block>, k: nat)
    requires Tiled(blocks, |image|, |image|) && k <= |blocks| && WRITE_BLOCK_SIZE * k <= |image|
    ensures DeliveredAll(bulk, image, blocks[..k]) == Words(image[..WRITE_BLOCK_SIZE * k])
  {
    hide Words; hide Delivered;
    NoWords();
    if k > 0 {
      var at := WRITE_BLOCK_SIZE * (k - 1);
      FullBlocks(bulk, image, blocks, k - 1);
      assert blocks[..k] == blocks[..k - 1] + [blocks[k - 1]];
      DeliveredPush(bulk, image, blocks[..k - 1], blocks[k - 1]);
      FullBlock(bulk, image, at);
      var whole := image[at..at + WRITE_BLOCK_SIZE];
      TimesBlock(k - 1);
      WordsSplit(image[..at], whole);
      assert image[..at] + whole == image[..WRITE_BLOCK_SIZE * k];
    }
  }

  lemma TimesBlock(k: nat)
    ensures (WRITE_BLOCK_SIZE * k) % 4 == 0
  {
    PlusWords(0, 0x1000 * k);
  }

  lemma FullBlock(bulk: bool, image: seq<Byte>, at: nat)
    requires at + WRITE_BLOCK_SIZE <= |image|
    ensures Delivered(bulk, image, Block(at, WRITE_BLOCK_SIZE)) == Words(image[at..at + WRITE_BLOCK_SIZE])
  {
    hide Words; hide Fifo; hide Staged;
    FullIsWhole();
    FifoExact(image[at..at + WRITE_BLOCK_SIZE]);
    StagedWhole(image, at, WRITE_BLOCK_SIZE);
  }

  lemma FullIsWhole()
    ensures WholeInFifo(WRITE_BLOCK_SIZE)
  {
  }

  /** All of an image but its last block is delivered as it is. */
  lemma LastBlockDecides(bulk: bool, image: seq<Byte>, blocks: seq<Block>)
    requires Tiled(blocks, |image|, |image|) && image != []
    ensures blocks != [] && forall i :: 0 <= i < |blocks| ==> blocks[i].offset + blocks[i].size <= |image|
    ensures var last := blocks[|blocks| - 1];
      last.offset + last.size == |image| && last.offset == WRITE_BLOCK_SIZE * (|blocks| - 1) &&
      (DeliveredAll(bulk, image, blocks) == Words(image) <==>
        Delivered(bulk, image, last) == Words(image[last.offset..]))
  {
    hide Words; hide Delivered; hide DeliveredAll; hide Tiled;
    LastBlock(blocks, |image|);
    var k := |blocks| - 1;
    var at := WRITE_BLOCK_SIZE * k;
    FullBlocks(bulk, image, blocks, k);
    DeliveredPush(bulk, image, blocks[..k], blocks[k]);
    assert blocks == blocks[..k] + [blocks[k]];
    WordsSplit(image[..at], image[at..]);
    assert image[..at] + image[at..] == image;
    Cancel(Words(image[..at]), Delivered(bulk, image, blocks[k]), Words(image[at..]));
  }

  lemma LastBlock(blocks: seq<Block>, n: nat)
    requires Tiled(blocks, n, n) && n > 0
    ensures blocks != []
    ensures blocks[|blocks| - 1].offset == WRITE_BLOCK_SIZE * (|blocks| - 1) <= n
    ensures blocks[|blocks| - 1].offset + blocks[|blocks| - 1].size == n
    ensures forall i :: 0 <= i < |blocks| ==> blocks[i].offset + blocks[i].size <= n
  {
  }

  lemma Cancel(a: seq<nat>, x: seq<nat>, y: seq<nat>)
    ensures a + x == a + y <==> x == y
  {
    if a + x == a + y {
      assert x == (a + x)[|a|..] && y == (a + y)[|a|..];
    }
  }

  /** Through the FIFO, a complete transfer puts the packing of the image into the flash exactly when the
      image's size is a multiple of four or fewer than four bytes past a whole number of FIFO fills. */
  lemma BulkUploadExact(image: seq<Byte>, blocks: seq<Block>)
    requires Tiled(blocks, |image|, |image|) && image != []
    ensures DeliveredAll(true, image, blocks) == Words(image) <==> WholeInFifo(|image|)
  {
    hide Fifo; hide Words; hide Staged;
    LastBlockDecides(true, image, blocks);
    var last := blocks[|blocks| - 1];
    FifoExact(image[last.offset..]);
    assert image[last.offset..last.offset + last.size] == image[last.offset..];
    BlocksAreFills(|image|, |blocks| - 1);
  }

  lemma BlocksAreFills(n: nat, k: nat)
    requires WRITE_BLOCK_SIZE * k <= n
    ensures WholeInFifo(n - WRITE_BLOCK_SIZE * k) == WholeInFifo(n)
    ensures (n - WRITE_BLOCK_SIZE * k) % 4 == n % 4
  {
    var m := n - WRITE_BLOCK_SIZE * k;
    PlusWords(m, 0x1000 * k);
    PlusFills(m, 8 * k);
  }

  lemma PlusWords(m: nat, q: nat)
    ensures (m + 4 * q) % 4 == m % 4
  {
  }

  lemma PlusFills(m: nat, q: nat)
    ensures (m + FIFO_MAX_BYTES * q) % FIFO_MAX_BYTES == m % FIFO_MAX_BYTES
  {
    assert m == FIFO_MAX_BYTES * (m / FIFO_MAX_BYTES) + m % FIFO_MAX_BYTES;
    assert m + FIFO_MAX_BYTES * q == FIFO_MAX_BYTES * (m / FIFO_MAX_BYTES + q) + m % FIFO_MAX_BYTES;
  }

  /** Through the staging registers it does so for every image of a size exactly when the size is a
      multiple of four or the image is a single block. */
  lemma StagedUploadExact(n: nat, blocks: seq<Block>)
    requires Tiled(blocks, n, n) && n > 0
    ensures (forall image: seq<Byte> :: |image| == n ==> DeliveredAll(false, image, blocks) == Words(image))
            <==> (n % 4 == 0 || n <= WRITE_BLOCK_SIZE)
  {
    hide Words; hide Staged;
    var zeros: seq<Byte> := seq(n, i => 0);
    LastBlockDecides(false, zeros, blocks);
    var last := blocks[|blocks| - 1];
    BlocksAreFills(n, |blocks| - 1);
    if n % 4 == 0 || n <= WRITE_BLOCK_SIZE {
      forall image: seq<Byte> | |image| == n
        ensures DeliveredAll(false, image, blocks) == Words(image)
      {
        LastBlockDecides(false, image, blocks);
        StagedWhole(image, last.offset, last.size);
        assert image[last.offset..last.offset + last.size] == image[last.offset..];
      }
    } else {
      var image := StagedWrong(n, last.offset, last.size);
      LastBlockDecides(false, image, blocks);
      assert image[last.offset..last.offset + last.size] == image[last.offset..];
    }
  }

  /** The odd bytes at the end of an image, if any, are those at the same place of its first block. */
  predicate OddBytesRepeat(image: seq<Byte>) {
    var last := |image| % WRITE_BLOCK_SIZE;
    last % 4 == 0 || image[last - last % 4..last] == image[|image| - last % 4..]
  }

  /** For one image, the staging registers get its packing exactly when the odd bytes at its end happen to be
      those the code takes for them. */
  lemma StagedImageExact(image: seq<Byte>, blocks: seq<Block>)
    requires Tiled(blocks, |image|, |image|) && image != []
    ensures DeliveredAll(false, image, blocks) == Words(image) <==> OddBytesRepeat(image)
  {
    hide Words; hide Staged; hide Tiled; hide DeliveredAll; hide OddBytesRepeat;
    LastBlockDecides(false, image, blocks);
    var last := blocks[|blocks| - 1];
    assert image[last.offset..last.offset + last.size] == image[last.offset..];
    StagedBlockExact(image, last.offset, last.size);
    SizeOfLast(blocks, |image|);
    OddBytesMeans(image, last.offset, last.size);
  }

  lemma OddBytesMeans(image: seq<Byte>, offset: nat, size: nat)
    requires offset + size == |image| && size % 4 == |image| % WRITE_BLOCK_SIZE % 4
    requires size % 4 != 0 ==> size == |image| % WRITE_BLOCK_SIZE
    ensures OddBytesRepeat(image) <==>
            size % 4 == 0 || image[size - size % 4..size] == image[offset + size - size % 4..offset + size]
  {
    assert image[|image| - size % 4..] == image[offset + size - size % 4..offset + size];
  }

  /** The last block's size is what the image's size leaves, short of a full block. */
  lemma SizeOfLast(blocks: seq<Block>, n: nat)
    requires Tiled(blocks, n, n) && n > 0
    ensures blocks != []
    ensures var size := blocks[|blocks| - 1].size;
      size % 4 == n % WRITE_BLOCK_SIZE % 4 && (size % 4 != 0 ==> size == n % WRITE_BLOCK_SIZE)
  {
    var k := |blocks| - 1;
    LastBlock(blocks, n);
    LastIsRest(n, k, blocks[k].size);
  }

  lemma LastIsRest(n: nat, k: nat, size: nat)
    requires n == WRITE_BLOCK_SIZE * k + size && size <= WRITE_BLOCK_SIZE
    ensures size % 4 == n % WRITE_BLOCK_SIZE % 4 && (size % 4 != 0 ==> size == n % WRITE_BLOCK_SIZE)
  {
  }

  // ---------------------------------------------------------------- the drivers

  class Update {
    const bulk: bool
    const stagingSize: nat
    var progress: Progress
    var errProgress: Progress
    var errCode: UploadErr
    var remaining: nat
    var data: Option<seq<Byte>>
    var finished: bool
    var cancelRequest: bool
    var fwState: FwState
    var flashBusy: bool
    /** References held on the parent device, and signals sent to the user. */
    var parentRefs: nat
    var signals: nat
    /** Blocks written, and everything the flash port took. */
    ghost var blocks: seq<Block>
    ghost var port: seq<nat>
    /** Cancels accepted since the request was taken up, and those of them whose flag prepare cleared. */
    ghost var accepts: nat
    ghost var lost: nat
    /** A flag left over from an earlier update, which prepare clears as well. */
    ghost var stale: bool
    /** How many blocks had been written when the first cancel that is not lost was accepted. */
    ghost var cancelledAt: Option<nat>
    /** The doorbell as last read, and as it was when the update was found complete. */
    ghost var last: Option<Doorbell>
    ghost var verdict: Option<Doorbell>
    /** A register access or a transfer to the flash has failed. */
    ghost var busFailed: bool
    /** How often the host told the device to go ahead, and how often to abort. */
    ghost var writeDones: nat
    ghost var aborts: nat

    /** The flag says whether a cancel is pending, and after one at most the write already under way adds a
        block. */
    ghost predicate CancelSeen()
      reads this`cancelRequest, this`cancelledAt, this`blocks, this`accepts, this`lost, this`stale
    {
      lost <= accepts && (cancelRequest <==> stale || accepts > lost) && (cancelledAt.Some? <==> accepts > lost) &&
      (cancelledAt.Some? ==> cancelledAt.value <= |blocks| <= cancelledAt.value + 1)
    }

    ghost predicate Idle()
      reads this
    {
      progress == IDLE && data == None && !finished && CancelSeen()
    }

    constructor (bulk: bool, stagingSize: nat)
      ensures Idle() && fwState == NORMAL && !flashBusy && this.bulk == bulk && this.stagingSize == stagingSize
    {
      this.bulk, this.stagingSize := bulk, stagingSize;
      progress, errProgress, errCode, remaining, data := IDLE, IDLE, NONE, 0, None;
      finished, cancelRequest, fwState, flashBusy, parentRefs, signals := false, false, NORMAL, false, 0, 0;
      blocks, port, cancelledAt, last, verdict, writeDones, aborts := [], [], None, None, None, 0, 0;
      accepts, lost, stale, busFailed := 0, 0, false, false;
    }

    /** fpga_image_load_ioctl_cancel and m10bmc_sec_cancel: only sets the flag, and not when idle. */
    method Cancel() returns (ret: int)
      requires CancelSeen()
      modifies this`cancelRequest, this`cancelledAt, this`accepts
      ensures CancelSeen() && cancelRequest == (old(cancelRequest) || progress != IDLE)
      ensures ret == (if progress != IDLE then 0 else -ENODEV)
      ensures accepts == old(accepts) + if ret == 0 then 1 else 0
      ensures cancelledAt == if ret == 0 && old(accepts) == lost then Some(|blocks|) else old(cancelledAt)
    {
      if progress == IDLE {
        return -ENODEV;
      }
      if accepts == lost { cancelledAt := Some(|blocks|); }
      accepts := accepts + 1;
      cancelRequest := true;
      ret := 0;
    }

    /** The user may cancel here, any number of times. */
    method Interleave()
      requires CancelSeen() && progress != IDLE
      modifies this`cancelRequest, this`cancelledAt, this`accepts
      ensures CancelSeen() && accepts >= old(accepts)
      ensures old(accepts) > lost ==> cancelledAt == old(cancelledAt)
      ensures old(accepts) == lost && accepts > lost ==> cancelledAt == Some(|blocks|)
    {
      var times: nat :| times >= 0;
      while times > 0
        invariant CancelSeen() && accepts >= old(accepts)
        invariant old(accepts) > lost ==> cancelledAt == old(cancelledAt)
        invariant old(accepts) == lost && accepts > lost ==> cancelledAt == Some(|blocks|)
      {
        var ret := Cancel();
        times := times - 1;
      }
    }

    // -------------------------------------------------------------- flash lock and registers

    /** m10bmc_pmci_flash_lock. */
    method FlashLock() returns (ret: int)
      modifies this`flashBusy
      ensures flashBusy && (ret == 0 <==> !old(flashBusy)) && (ret == 0 || ret == -EBUSY)
    {
      if flashBusy {
        return -EBUSY;
      }
      flashBusy := true;
      ret := 0;
    }

    /** m10bmc_pmci_flash_unlock; never called without the lock. */
    method FlashUnlock()
      requires flashBusy
      modifies this`flashBusy
      ensures !flashBusy
    {
      flashBusy := false;
    }

    /** A read of the doorbell, None when the bus fails. */
    method ReadDoorbell() returns (d: Option<Doorbell>)
      modifies this`last, this`busFailed
      ensures d == last && busFailed == (old(busFailed) || d.None?)
    {
      var ok, request: bool := *, *;
      var prog: nat, status: nat :| prog < 16 && status < 256;
      d := if ok then Some(Doorbell(request, prog, status)) else None;
      last := d;
      if !ok { busFailed := true; }
    }

    method BusWrite() returns (ok: bool)
      modifies this`busFailed
      ensures busFailed == (old(busFailed) || !ok)
    {
      ok := *;
      if !ok { busFailed := true; }
    }

    /** The device's progress as last read. */
    ghost predicate Shows(progs: set<nat>)
      reads this`last
    {
      last.Some? && last.value.prog in progs
    }

    /** rsu_check_idle. */
    method RsuCheckIdle() returns (err: UploadErr)
      modifies this`last, this`busFailed
      ensures err == if last.None? then RW_ERROR else if Shows({0, 8}) then NONE else BUSY
      ensures err == RW_ERROR ==> busFailed
    {
      var d := ReadDoorbell();
      if d.None? {
        return RW_ERROR;
      }
      err := if RsuProgressDone(d.value.prog) then NONE else BUSY;
    }

    /** rsu_update_init. */
    method RsuUpdateInit() returns (err: UploadErr)
      modifies this`last, this`busFailed
      ensures err in {NONE, RW_ERROR, TIMEOUT, WEAROUT, HW_ERROR} && (err == RW_ERROR ==> busFailed)
      ensures err == TIMEOUT ==> last.Some? && !RsuStartDone(last.value)
      ensures err == NONE ==> last.Some? && !last.value.request && !Shows({0, 8}) && last.value.status !in {7, 8}
      ensures err == WEAROUT ==> last.Some? && !last.value.request && last.value.status == 8
      ensures err == HW_ERROR ==> last.Some? && !last.value.request && last.value.status == 7
    {
      var ok := BusWrite();
      if !ok {
        return RW_ERROR;
      }
      var ticks: nat :| ticks >= 0;
      var d := ReadDoorbell();
      while ticks > 0 && d.Some? && !RsuStartDone(d.value)
        invariant d == last && (d.None? ==> busFailed)
      {
        d := ReadDoorbell();
        ticks := ticks - 1;
      }
      if d.Some? && !RsuStartDone(d.value) {
        return TIMEOUT;
      }
      if d.None? {
        return RW_ERROR;
      }
      if d.value.status == RSU_STAT_WEAROUT {
        return WEAROUT;
      }
      err := if d.value.status == RSU_STAT_ERASE_FAIL then HW_ERROR else NONE;
    }

    /** rsu_prog_ready. */
    method RsuProgReady() returns (err: UploadErr)
      modifies this`last, this`busFailed
      ensures err == if last.None? then RW_ERROR else if Shows({1}) then TIMEOUT
                     else if Shows({3}) then NONE else HW_ERROR
      ensures err == RW_ERROR ==> busFailed
    {
      var d := ReadDoorbell();
      if d.None? {
        return RW_ERROR;
      }
      var ticks: nat :| ticks >= 0;
      while ticks > 0 && d.value.prog == RSU_PROG_PREPARE
        invariant d.Some? && d == last
      {
        d := ReadDoorbell();
        if d.None? {
          return RW_ERROR;
        }
        ticks := ticks - 1;
      }
      if d.value.prog == RSU_PROG_PREPARE {
        return TIMEOUT;
      }
      err := if d.value.prog != RSU_PROG_READY then HW_ERROR else NONE;
    }

    /** rsu_send_data. */
    method RsuSendData() returns (err: UploadErr)
      modifies this`last, this`busFailed, this`writeDones
      ensures err in {NONE, RW_ERROR, TIMEOUT, HW_ERROR} && (err == RW_ERROR ==> busFailed)
      ensures err == TIMEOUT ==> Shows({3})
      ensures err == HW_ERROR ==> busFailed || !GoodStatus(last)
      ensures err == NONE ==> GoodStatus(last) && writeDones == old(writeDones) + 1
      ensures writeDones <= old(writeDones) + 1
    {
      var ok := BusWrite();
      if !ok {
        return RW_ERROR;
      }
      writeDones := writeDones + 1;
      var ticks: nat :| ticks >= 0;
      var d := ReadDoorbell();
      while ticks > 0 && d.Some? && d.value.prog == RSU_PROG_READY
        invariant d == last && (d.None? ==> busFailed) && writeDones == old(writeDones) + 1
      {
        d := ReadDoorbell();
        ticks := ticks - 1;
      }
      if d.None? {
        return RW_ERROR;
      }
      if d.value.prog == RSU_PROG_READY {
        return TIMEOUT;
      }
      var s := ReadDoorbell();
      err := if s.None? || !RsuStatusOk(s.value.status) then HW_ERROR else NONE;
    }

    /** rsu_check_complete. */
    method RsuCheckComplete() returns (ret: int)
      modifies this`last, this`busFailed
      ensures ret in {0, -EIO, -EINVAL, -EAGAIN}
      ensures ret == 0 <==> GoodStatus(last) && Shows({0, 8})
      ensures ret == -EAGAIN <==> GoodStatus(last) && Shows({4, 5, 6, 7})
      ensures ret == -EIO <==> last.None?
      ensures ret == -EIO ==> busFailed
    {
      var d := ReadDoorbell();
      if d.None? {
        return -EIO;
      }
      if !RsuStatusOk(d.value.status) {
        return -EINVAL;
      }
      if RsuProgressDone(d.value.prog) {
        return 0;
      }
      ret := if RsuProgressBusy(d.value.prog) then -EAGAIN else -EINVAL;
    }

    /** rsu_cancel; never reports success. */
    method RsuCancel() returns (err: UploadErr)
      modifies this`last, this`busFailed, this`aborts
      ensures err in {CANCELED, BUSY, RW_ERROR}
      ensures aborts == old(aborts) + if err == CANCELED then 1 else 0
      ensures err == CANCELED ==> Shows({3})
      ensures err == BUSY <==> last.Some? && !Shows({3})
      ensures err == RW_ERROR || old(busFailed) ==> busFailed
    {
      var d := ReadDoorbell();
      if d.None? {
        return RW_ERROR;
      }
      if d.value.prog != RSU_PROG_READY {
        return BUSY;
      }
      var ok := BusWrite();
      if ok { aborts := aborts + 1; }
      err := if ok then CANCELED else RW_ERROR;
    }

    // -------------------------------------------------------------- the update operations

    /** What an error in preparing the device says about it or about the bus. */
    ghost predicate DeviceCause(err: UploadErr)
      reads this`last, this`busFailed
    {
      (err == RW_ERROR ==> busFailed) &&
      (err == TIMEOUT ==> last.Some? && (Shows({1}) || !RsuStartDone(last.value))) &&
      (err == WEAROUT ==> last.Some? && last.value.status == 8) &&
      (err == HW_ERROR ==> last.Some? && (last.value.status == 7 || !Shows({1, 3})))
    }

    /** The device reported the update complete with a good status. */
    ghost predicate Confirmed()
      reads this`verdict
    {
      GoodStatus(verdict) && verdict.value.prog in {0, 8}
    }

    /** m10bmc_sec_prepare: takes the flash lock and keeps it only on success. Every cancel accepted before
        it runs is lost with its flag: from here on the flag stands for the cancels accepted since. */
    method SecPrepare(size: nat) returns (err: UploadErr)
      requires CancelSeen() && blocks == [] && progress == PREPARING
      modifies this`cancelRequest, this`cancelledAt, this`accepts, this`lost, this`stale
      modifies this`fwState, this`flashBusy, this`last, this`busFailed, this`aborts
      ensures CancelSeen() && accepts >= old(accepts) == lost && !stale
      ensures err == CANCELED ==> accepts > lost
      ensures err == NONE ==> 0 < size <= stagingSize && fwState == SEC_UPDATE_WRITE
      ensures err == NONE ==> last.Some? && last.value.prog == RSU_PROG_READY
      ensures err == NONE ==> if bulk then flashBusy && !old(flashBusy) else flashBusy == old(flashBusy)
      ensures err != NONE ==> flashBusy == old(flashBusy) && (fwState == NORMAL || fwState == old(fwState))
      ensures bulk && old(flashBusy) ==> err == INVALID_SIZE || err == BUSY
      ensures err == INVALID_SIZE <==> size == 0 || size > stagingSize
      ensures err == BUSY ==> (bulk && old(flashBusy)) || (last.Some? && (!Shows({0, 8}) || accepts > lost))
      ensures DeviceCause(err)
    {
      cancelRequest := false;
      cancelledAt, lost, stale := None, accepts, false;
      if size == 0 || size > stagingSize {
        return INVALID_SIZE;
      }
      if bulk {
        var ret := FlashLock();
        if ret != 0 {
          return BUSY;
        }
      }
      err := RsuCheckIdle();
      if err == NONE {
        fwState := SEC_UPDATE_PREPARE;
        Interleave();
        err := PrepareDevice();
        if err == NONE {
          fwState := SEC_UPDATE_WRITE;
          return;
        }
        fwState := NORMAL;
      }
      if bulk {
        FlashUnlock();
      }
    }

    /** The middle of m10bmc_sec_prepare. */
    method PrepareDevice() returns (err: UploadErr)
      requires CancelSeen() && progress == PREPARING && !stale
      modifies this`cancelRequest, this`cancelledAt, this`accepts, this`last, this`busFailed, this`aborts
      ensures CancelSeen() && accepts >= old(accepts)
      ensures err == CANCELED ==> accepts > lost
      ensures DeviceCause(err) && err != INVALID_SIZE && (err == BUSY ==> last.Some? && accepts > lost)
      ensures err == NONE ==> !cancelRequest && last.Some? && last.value.prog == RSU_PROG_READY
    {
      err := RsuUpdateInit();
      if err != NONE {
        return;
      }
      Interleave();
      err := RsuProgReady();
      if err != NONE {
        return;
      }
      Interleave();
      if cancelRequest {
        err := RsuCancel();
      }
    }

    /** m10bmc_sec_write: through the FIFO when there is one, which needs the flash lock. */
    method SecWrite(image: seq<Byte>, offset: nat, size: nat) returns (ok: bool)
      requires offset + size <= |image| && (bulk ==> flashBusy)
      modifies this`port, this`busFailed
      ensures ok ==> port == old(port) + Delivered(bulk, image, Block(offset, size))
      ensures busFailed == (old(busFailed) || !ok)
    {
      if bulk {
        var timesOut: nat -> bool := *;
        var ret, fifo := FlashBulkWrite(image[offset..offset + size], timesOut);
        port := port + fifo;
        if ret != 0 { busFailed := true; }
        return ret == 0;
      }
      ok := BusWrite();
      if ok { port := port + Staged(image, offset, size); }
    }

    /** m10bmc_sec_fw_write: writes one block, or nothing once a cancel has been requested. */
    method SecFwWrite(image: seq<Byte>, offset: nat, size: nat) returns (err: UploadErr, written: nat)
      requires CancelSeen() && !stale && progress == TRANSFERRING && offset + size == |image| && size > 0
      requires bulk ==> flashBusy
      modifies this`cancelRequest, this`cancelledAt, this`accepts, this`blocks, this`port
      modifies this`last, this`busFailed, this`aborts
      ensures CancelSeen() && (err == CANCELED ==> accepts > lost)
      ensures err == NONE ==> last.Some? && last.value.prog == RSU_PROG_READY
      ensures err == NONE ==> written == Min(WRITE_BLOCK_SIZE, size) && blocks == old(blocks) + [Block(offset, written)]
      ensures err == NONE ==> port == old(port) + Delivered(bulk, image, Block(offset, written))
      ensures err != NONE ==> written == 0 && blocks == old(blocks)
      ensures old(cancelRequest) ==> err in {CANCELED, BUSY, RW_ERROR} && port == old(port)
      ensures err in {NONE, CANCELED, BUSY, RW_ERROR, HW_ERROR} && (err == RW_ERROR ==> busFailed)
      ensures (err == BUSY ==> accepts > lost) && (err == HW_ERROR ==> last.Some? && !Shows({3}))
    {
      written := 0;
      if cancelRequest {
        err := RsuCancel();
        return;
      }
      Interleave();
      var d := ReadDoorbell();
      if d.None? {
        return RW_ERROR, 0;
      }
      if d.value.prog != RSU_PROG_READY {
        return HW_ERROR, 0;
      }
      var blkSize := Min(WRITE_BLOCK_SIZE, size);
      var ok := SecWrite(image, offset, blkSize);
      if !ok {
        return RW_ERROR, 0;
      }
      blocks := blocks + [Block(offset, blkSize)];
      err, written := NONE, blkSize;
    }

    /** m10bmc_sec_poll_complete. */
    method SecPollComplete() returns (err: UploadErr)
      requires CancelSeen() && !stale && progress == PROGRAMMING
      modifies this`cancelRequest, this`cancelledAt, this`accepts
      modifies this`fwState, this`last, this`busFailed, this`aborts, this`writeDones, this`verdict
      ensures CancelSeen() && (err == CANCELED ==> accepts > lost)
      ensures err == NONE ==> writeDones == old(writeDones) + 1 && Confirmed()
      ensures fwState == if old(cancelRequest) then old(fwState) else SEC_UPDATE_PROGRAM
      ensures old(cancelRequest) ==> err in {CANCELED, BUSY, RW_ERROR}
      ensures err in {NONE, CANCELED, BUSY, RW_ERROR, HW_ERROR, TIMEOUT} && (err == RW_ERROR ==> busFailed)
      ensures err == BUSY ==> accepts > lost
      ensures err == TIMEOUT ==> Shows({3}) || (GoodStatus(last) && Shows({4, 5, 6, 7}))
      ensures err == HW_ERROR ==> busFailed || !GoodStatus(last) || !Shows({0, 4, 5, 6, 7, 8})
      ensures !old(cancelRequest) && cancelRequest ==> cancelledAt == Some(|blocks|)
    {
      if cancelRequest {
        err := RsuCancel();
        return;
      }
      Interleave();
      fwState := SEC_UPDATE_PROGRAM;
      err := RsuSendData();
      if err != NONE {
        return;
      }
      err := AwaitComplete();
      Interleave();
    }

    /** The polling loop of m10bmc_sec_poll_complete. */
    method AwaitComplete() returns (err: UploadErr)
      modifies this`last, this`busFailed, this`verdict
      ensures err in {NONE, RW_ERROR, HW_ERROR, TIMEOUT} && verdict == last
      ensures err == NONE <==> GoodStatus(last) && Shows({0, 8})
      ensures err == TIMEOUT <==> GoodStatus(last) && Shows({4, 5, 6, 7})
      ensures err == RW_ERROR ==> busFailed
    {
      var ticks: nat :| ticks >= 0;
      var ret := RsuCheckComplete();
      while ret == -EAGAIN && ticks > 0
        invariant ret in {0, -EIO, -EINVAL, -EAGAIN}
        invariant ret == 0 <==> GoodStatus(last) && Shows({0, 8})
        invariant ret == -EAGAIN <==> GoodStatus(last) && Shows({4, 5, 6, 7})
        invariant ret == -EIO ==> busFailed
        modifies this`last, this`busFailed
      {
        ret := RsuCheckComplete();
        ticks := ticks - 1;
      }
      verdict := last;
      err := if ret == -EAGAIN then TIMEOUT else if ret == -EIO then RW_ERROR else if ret != 0 then HW_ERROR else NONE;
    }

    /** m10bmc_sec_cleanup. */
    method SecCleanup()
      requires bulk ==> flashBusy
      modifies this`fwState, this`flashBusy, this`last, this`busFailed, this`aborts
      ensures fwState == NORMAL && flashBusy == (!bulk && old(flashBusy)) && (old(busFailed) ==> busFailed)
    {
      var ignored := RsuCancel();
      fwState := NORMAL;
      if bulk {
        FlashUnlock();
      }
    }

    // -------------------------------------------------------------- the upload worker

    /** fpga_image_load_ioctl_write: what it needs of the request is checked before anything changes.
        `copied` and `imageCopied` are the answers of copy_from_user for the request and for the image, and
        `ctx` that of eventfd_ctx_fdget for the descriptor: 0, or the error when it is no eventfd. */
    method IoctlWrite(image: seq<Byte>, flags: nat, copied: bool, evtfd: int, memory: bool, imageCopied: bool, ctx: int)
      returns (ret: int)
      requires Idle() && ctx <= 0
      modifies this`finished, this`parentRefs, this`progress, this`errCode, this`remaining, this`data
      modifies this`blocks, this`port, this`accepts, this`lost, this`stale, this`cancelledAt
      ensures ret == 0 <==> copied && flags == 0 && image != [] && evtfd >= 0 && memory && imageCopied && ctx == 0
      ensures ret == WriteAnswer(image, flags, copied, evtfd, memory, imageCopied, ctx)
      ensures ret == 0 ==> progress == RECEIVING && errCode == NONE && remaining == |image|
      ensures ret == 0 ==> data == Some(image) && finished && parentRefs == old(parentRefs) + 1
      ensures ret == 0 ==> blocks == [] && port == [] && CancelSeen() && accepts == lost == 0
      ensures ret != 0 ==> unchanged(this)
    {
      ret := CheckRequest(image, flags, copied, evtfd, memory, imageCopied, ctx);
      if ret == 0 {
        TakeUp(image);
      }
    }

    /** The end of fpga_image_load_ioctl_write: the worker is queued with the image. */
    method TakeUp(image: seq<Byte>)
      modifies this`finished, this`parentRefs, this`progress, this`errCode, this`remaining, this`data
      modifies this`blocks, this`port, this`accepts, this`lost, this`stale, this`cancelledAt
      ensures progress == RECEIVING && errCode == NONE && remaining == |image|
      ensures data == Some(image) && finished && parentRefs == old(parentRefs) + 1
      ensures blocks == [] && port == [] && CancelSeen() && accepts == lost == 0
    {
      finished := true;
      parentRefs := parentRefs + 1;
      progress := RECEIVING;
      errCode := NONE;
      remaining := |image|;
      data := Some(image);
      ForgetCancels();
    }

    ghost method ForgetCancels()
      modifies this`blocks, this`port, this`accepts, this`lost, this`stale, this`cancelledAt
      ensures blocks == [] && port == [] && CancelSeen() && accepts == lost == 0
    {
      blocks, port, accepts, lost, stale, cancelledAt := [], [], 0, 0, cancelRequest, None;
    }

    /** The checks of fpga_image_load_ioctl_write in their order. */
    method CheckRequest(image: seq<Byte>, flags: nat, copied: bool, evtfd: int, memory: bool, imageCopied: bool,
                        ctx: int)
      returns (ret: int)
      ensures ret == WriteAnswer(image, flags, copied, evtfd, memory, imageCopied, ctx)
    {
      if !copied {
        return -EFAULT;
      }
      if flags != 0 {
        return -EINVAL;
      }
      if image == [] {
        return -EINVAL;
      }
      if evtfd < 0 {
        return -EINVAL;
      }
      if !memory {
        return -ENOMEM;
      }
      if !imageCopied {
        return -EFAULT;
      }
      ret := ctx;
    }

    /** A cancel right after the write request is answered with 0 and has no effect: when prepare succeeds
        and no further cancel was accepted, the flag is clear and the device is about to take the image. */
    method CancelTooEarly(image: seq<Byte>) returns (cancelRet: int, err: UploadErr)
      requires Idle() && image != [] && fwState == NORMAL
      modifies this
      ensures cancelRet == 0 && accepts >= lost == 1
      ensures err == CANCELED ==> accepts > 1
      ensures err == NONE && accepts == 1 ==> !cancelRequest && fwState == SEC_UPDATE_WRITE && data == Some(image)
    {
      var ret := IoctlWrite(image, 0, true, 0, true, true, 0);
      cancelRet := Cancel();
      progress := PREPARING;
      err := SecPrepare(remaining);
    }

    method SetError(err: UploadErr)
      modifies this`errProgress, this`errCode
      ensures errProgress == progress && errCode == err
    {
      errProgress := progress;
      errCode := err;
    }

    /** fw_upload_main. However the device answers and whenever a cancel arrives, the worker ends: idle,
        the image and the reference dropped, the user signalled once, the flash lock as it was found and
        the firmware state normal again. The blocks written tile a prefix of the image, all of it unless
        an error is reported, and then the port has the packing of the image exactly for the sizes each path
        can carry. An update that succeeds although a cancel was accepted either had its cancels accepted
        before prepare ran, where they are lost, or after every block was written; and only a cancel that is
        not lost ends an update as cancelled. */
    method UploadMain(ghost image: seq<Byte>)
      requires progress == RECEIVING && data == Some(image) && remaining == |image| && finished && errCode == NONE
      requires parentRefs > 0 && blocks == [] && port == [] && CancelSeen() && fwState == NORMAL
      modifies this
      ensures Idle() && parentRefs == old(parentRefs) - 1 && signals == old(signals) + 1
      ensures flashBusy == old(flashBusy) && fwState == NORMAL
      ensures remaining <= |image| && Tiled(blocks, |image|, |image| - remaining)
      ensures errCode == NONE ==> remaining == 0 && 0 < |image| <= stagingSize && Confirmed()
      ensures errCode == NONE ==> writeDones == old(writeDones) + 1
      ensures errCode == NONE ==> port == DeliveredAll(bulk, image, blocks)
      ensures errCode == NONE ==>
        (port == Words(image) <==> if bulk then WholeInFifo(|image|) else OddBytesRepeat(image))
      ensures lost <= accepts && lost >= old(accepts)
      ensures errCode == NONE && accepts > lost ==> cancelledAt == Some(|blocks|)
      ensures errCode == CANCELED || (errCode == BUSY && errProgress != PREPARING) ==> accepts > lost
      ensures errCode == INVALID_SIZE <==> |image| == 0 || |image| > stagingSize
      ensures errCode == RW_ERROR ==> busFailed
      ensures errCode == WEAROUT ==> errProgress == PREPARING
      ensures errCode != NONE ==> errProgress == PREPARING || errProgress == TRANSFERRING || errProgress == PROGRAMMING
      ensures errCode != NONE && errProgress == PREPARING ==> blocks == [] && port == []
      ensures errCode != NONE && errProgress == PROGRAMMING ==> remaining == 0
      ensures bulk && old(flashBusy) ==> (errCode == INVALID_SIZE || errCode == BUSY) && blocks == []
    {
      hide Tiled; hide DeliveredAll; hide Confirmed; hide Words; hide WholeInFifo; hide OddBytesRepeat;
      RunUpdate(data.value);
      if errCode == NONE {
        if bulk { BulkUploadExact(image, blocks); } else { StagedImageExact(image, blocks); }
      }
      Finish();
    }

    /** fw_upload_main between taking the work up and giving everything back. */
    method RunUpdate(image: seq<Byte>)
      requires progress == RECEIVING && remaining == |image| && errCode == NONE
      requires blocks == [] && port == [] && CancelSeen() && fwState == NORMAL
      modifies this`progress, this`remaining, this`cancelRequest, this`cancelledAt, this`accepts, this`lost, this`stale
      modifies this`blocks, this`port, this`flashBusy
      modifies this`errProgress, this`errCode, this`fwState
      modifies this`last, this`busFailed, this`aborts, this`writeDones, this`verdict
      ensures CancelSeen() && flashBusy == old(flashBusy) && fwState == NORMAL
      ensures remaining <= |image| && Tiled(blocks, |image|, |image| - remaining)
      ensures errCode == NONE ==> remaining == 0 && 0 < |image| <= stagingSize && Confirmed()
      ensures errCode == NONE ==> writeDones == old(writeDones) + 1
      ensures errCode == NONE ==> port == DeliveredAll(bulk, image, blocks)
      ensures lost >= old(accepts)
      ensures errCode == NONE && accepts > lost ==> cancelledAt == Some(|blocks|)
      ensures errCode == CANCELED || (errCode == BUSY && errProgress != PREPARING) ==> accepts > lost
      ensures errCode == INVALID_SIZE <==> |image| == 0 || |image| > stagingSize
      ensures errCode == RW_ERROR ==> busFailed
      ensures errCode == WEAROUT ==> errProgress == PREPARING
      ensures errCode != NONE ==> errProgress == PREPARING || errProgress == TRANSFERRING || errProgress == PROGRAMMING
      ensures errCode != NONE && errProgress == PREPARING ==> blocks == [] && port == []
      ensures errCode != NONE && errProgress == PROGRAMMING ==> remaining == 0
      ensures bulk && old(flashBusy) ==> (errCode == INVALID_SIZE || errCode == BUSY) && blocks == []
    {
      hide Tiled; hide DeliveredAll; hide CancelSeen; hide Confirmed;
      NothingTiled(|image|);
      Begin();
      if errCode == NONE {
        TransferAndProgram(image);
        SecCleanup();
      }
    }

    /** The first step of fw_upload_main. */
    method Begin()
      requires progress == RECEIVING && errCode == NONE && blocks == [] && CancelSeen() && fwState == NORMAL
      modifies this`progress, this`cancelRequest, this`cancelledAt, this`accepts, this`lost, this`stale, this`flashBusy
      modifies this`errProgress, this`errCode, this`fwState, this`last, this`busFailed, this`aborts
      ensures CancelSeen() && !stale && lost >= old(accepts) && (errCode != NONE ==> errProgress == PREPARING)
      ensures errCode == NONE ==> flashBusy == (bulk || old(flashBusy)) && !(bulk && old(flashBusy))
      ensures errCode != NONE ==> flashBusy == old(flashBusy) && fwState == NORMAL
      ensures errCode == CANCELED ==> accepts > lost
      ensures errCode == INVALID_SIZE <==> remaining == 0 || remaining > stagingSize
      ensures errCode == RW_ERROR ==> busFailed
      ensures bulk && old(flashBusy) ==> errCode == INVALID_SIZE || errCode == BUSY
    {
      hide CancelSeen;
      progress := PREPARING;
      Interleave();
      var err := SecPrepare(remaining);
      if err != NONE {
        SetError(err);
      }
    }

    /** The end of fw_upload_main and fw_upload_prog_complete. */
    method Finish()
      requires parentRefs > 0
      modifies this`parentRefs, this`data, this`progress, this`signals, this`finished
      ensures parentRefs == old(parentRefs) - 1 && signals == old(signals) + 1
      ensures data == None && progress == IDLE && !finished
    {
      parentRefs := parentRefs - 1;
      data := None;
      progress := IDLE;
      signals := signals + 1;
      finished := false;
    }

    /** The middle of fw_upload_main, between prepare and cleanup. */
    method TransferAndProgram(image: seq<Byte>)
      requires remaining == |image| && errCode == NONE && blocks == [] && port == []
      requires CancelSeen() && !stale && (bulk ==> flashBusy)
      modifies this`progress, this`remaining, this`cancelRequest, this`cancelledAt, this`accepts, this`blocks, this`port
      modifies this`errProgress, this`errCode, this`fwState
      modifies this`last, this`busFailed, this`aborts, this`writeDones, this`verdict
      ensures CancelSeen() && remaining <= |image| && Tiled(blocks, |image|, |image| - remaining)
      ensures errCode == NONE ==> remaining == 0 && port == DeliveredAll(bulk, image, blocks) && Confirmed()
      ensures errCode == NONE ==> writeDones == old(writeDones) + 1
      ensures errCode == NONE && accepts > lost ==> cancelledAt == Some(|blocks|)
      ensures errCode == CANCELED || errCode == BUSY ==> accepts > lost
      ensures errCode == RW_ERROR ==> busFailed
      ensures errCode !in {INVALID_SIZE, WEAROUT}
      ensures errCode != NONE ==> errProgress == TRANSFERRING || errProgress == PROGRAMMING
      ensures errCode != NONE && errProgress == PROGRAMMING ==> remaining == 0
    {
      hide Tiled; hide DeliveredAll; hide Min; hide CancelSeen;
      var err := Transfer(image);
      if err != NONE {
        SetError(err);
        return;
      }
      progress := PROGRAMMING;
      Interleave();
      err := SecPollComplete();
      if err != NONE {
        SetError(err);
      }
    }

    /** The transfer loop of fw_upload_main. */
    method Transfer(image: seq<Byte>) returns (err: UploadErr)
      requires remaining == |image| && blocks == [] && port == [] && CancelSeen() && !stale && (bulk ==> flashBusy)
      modifies this`progress, this`remaining, this`cancelRequest, this`cancelledAt, this`accepts, this`blocks, this`port
      modifies this`last, this`busFailed, this`aborts
      ensures CancelSeen() && progress == TRANSFERRING && (err == CANCELED ==> accepts > lost)
      ensures remaining <= |image| && Tiled(blocks, |image|, |image| - remaining)
      ensures err == NONE ==> remaining == 0 && port == DeliveredAll(bulk, image, blocks)
      ensures err in {NONE, CANCELED, BUSY, RW_ERROR, HW_ERROR}
      ensures (err == RW_ERROR ==> busFailed) && (err == BUSY ==> accepts > lost)
    {
      hide DeliveredAll; hide Delivered;
      NothingDelivered(bulk, image);
      progress := TRANSFERRING;
      var offset := 0;
      while remaining > 0
        invariant offset + remaining == |image| && Tiled(blocks, |image|, offset)
        invariant port == DeliveredAll(bulk, image, blocks)
        invariant CancelSeen() && progress == TRANSFERRING
        decreases remaining
      {
        Interleave();
        TiledPush(blocks, |image|, offset);
        DeliveredPush(bulk, image, blocks, Block(offset, Min(WRITE_BLOCK_SIZE, remaining)));
        var written;
        err, written := SecFwWrite(image, offset, remaining);
        if err != NONE || written == 0 {
          return if err == NONE then RW_ERROR else err;
        }
        remaining := remaining - written;
        offset := offset + written;
      }
      err := NONE;
    }
  }

  lemma NothingTiled(n: nat)
    ensures Tiled([], n, 0)
  {
  }

  lemma NothingDelivered(bulk: bool, image: seq<Byte>)
    ensures DeliveredAll(bulk, image, []) == []
  {
  }
}
