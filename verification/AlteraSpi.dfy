/** Word transfers of the Altera SPI core, drivers/spi/spi-altera-core.c: by polling, or word by word from
    the receive interrupt. */
module AlteraSpi {
  import opened Common
  import opened Packing

  /** The other end: the word it shifts back for each word sent, knowing all words sent so far. */
  type Device = seq<nat> -> nat

  /** The byte position of a word. */
  function Pos(bpw: nat, k: nat): nat {
    if bpw == 1 then k else if bpw == 2 then 2 * k else if bpw == 4 then 4 * k else 0
  }

  predicate WordSize(bpw: nat) {
    bpw == 1 || bpw == 2 || bpw == 4
  }

  /** The word altera_spi_tx_word sends: little-endian bytes of the buffer, 0 without one. */
  function TxWord(tx: Option<seq<Byte>>, bpw: nat, k: nat): nat
    requires tx.Some? ==> Pos(bpw, k + 1) <= |tx.value|
  {
    if tx.None? then 0
    else if bpw == 1 then tx.value[k]
    else if bpw == 2 then Word(tx.value[2 * k], tx.value[2 * k + 1], 0, 0)
    else if bpw == 4 then Word(tx.value[4 * k], tx.value[4 * k + 1], tx.value[4 * k + 2], tx.value[4 * k + 3])
    else 0
  }

  /** The bytes altera_spi_rx_word stores for a received word. */
  function RxBytes(bpw: nat, w: nat): (bs: seq<Byte>)
    ensures WordSize(bpw) ==> |bs| == bpw
  {
    if bpw == 1 then Unpack(w)[..1] else if bpw == 2 then Unpack(w)[..2] else if bpw == 4 then Unpack(w) else []
  }

  /** The first k words of a transfer, and the bytes received for them. */
  function Sent(tx: Option<seq<Byte>>, bpw: nat, k: nat): (s: seq<nat>)
    requires tx.Some? ==> Pos(bpw, k) <= |tx.value|
    ensures |s| == k
  {
    if k == 0 then [] else Sent(tx, bpw, k - 1) + [TxWord(tx, bpw, k - 1)]
  }

  function Received(device: Device, tx: Option<seq<Byte>>, bpw: nat, k: nat): (bs: seq<Byte>)
    requires tx.Some? ==> Pos(bpw, k) <= |tx.value|
    ensures WordSize(bpw) ==> |bs| == Pos(bpw, k)
  {
    if k == 0 then [] else Received(device, tx, bpw, k - 1) + RxBytes(bpw, device(Sent(tx, bpw, k)))
  }

  lemma ReceivedPush(device: Device, tx: Option<seq<Byte>>, bpw: nat, k: nat)
    requires tx.Some? ==> Pos(bpw, k + 1) <= |tx.value| && Pos(bpw, k) <= |tx.value|
    ensures Received(device, tx, bpw, k + 1) ==
            Received(device, tx, bpw, k) + RxBytes(bpw, device(Sent(tx, bpw, k + 1)))
  {
  }

  /** Word k on the wire has byte bpw * k + j of the buffer as its byte j, and nothing above; without a buffer
      it is 0. */
  ghost predicate SendsBuffer(tx: Option<seq<Byte>>, bpw: nat, sent: seq<nat>)
    requires WordSize(bpw) && (tx.Some? ==> Pos(bpw, |sent|) <= |tx.value|)
  {
    if tx.None? then forall k :: 0 <= k < |sent| ==> sent[k] == 0
    else forall k :: 0 <= k < |sent| ==> SentWord(tx.value, bpw, sent, k)
  }

  predicate SentWord(tx: seq<Byte>, bpw: nat, sent: seq<nat>, k: nat)
    requires WordSize(bpw) && k < |sent| && Pos(bpw, |sent|) <= |tx|
  {
    WordReads(sent[k], bpw, tx[Pos(bpw, k)..Pos(bpw, k) + bpw])
  }

  predicate WordReads(w: nat, bpw: nat, bytes: seq<Byte>)
    requires |bytes| == bpw
  {
    (forall j :: 0 <= j < bpw ==> bytes[j] == ByteOf(w, j)) &&
    (bpw == 1 ==> w < 0x100) && (bpw == 2 ==> w < 0x1_0000) && (bpw == 4 ==> w < 0x1_0000_0000)
  }

  /** Byte bpw * k + j received is byte j of the word shifted back for word k. */
  ghost predicate StoresAnswers(device: Device, bpw: nat, sent: seq<nat>, rx: seq<Byte>)
    requires WordSize(bpw) && Pos(bpw, |sent|) <= |rx|
  {
    forall k, j :: 0 <= k < |sent| && 0 <= j < bpw ==> StoredByte(device, bpw, sent, rx, k, j)
  }

  predicate StoredByte(device: Device, bpw: nat, sent: seq<nat>, rx: seq<Byte>, k: nat, j: nat)
    requires WordSize(bpw) && k < |sent| && j < bpw && Pos(bpw, |sent|) <= |rx|
  {
    rx[Pos(bpw, k) + j] == ByteOf(device(sent[..k + 1]), j)
  }

  lemma TxWordReads(tx: seq<Byte>, bpw: nat, k: nat)
    requires WordSize(bpw) && Pos(bpw, k + 1) <= |tx|
    ensures Pos(bpw, k) + bpw <= |tx|
    ensures WordReads(TxWord(Some(tx), bpw, k), bpw, tx[Pos(bpw, k)..Pos(bpw, k) + bpw])
  {
    if bpw == 1 {
      OneByteReads(tx[k]);
    } else if bpw == 2 {
      TwoBytesRead(tx[2 * k], tx[2 * k + 1]);
    } else {
      FourBytesRead(tx[4 * k], tx[4 * k + 1], tx[4 * k + 2], tx[4 * k + 3]);
    }
    hide Word; hide ByteOf;
  }

  lemma OneByteReads(b: Byte)
    ensures ByteOf(b, 0) == b
  {
  }

  lemma TwoBytesRead(b0: Byte, b1: Byte)
    ensures WordReads(Word(b0, b1, 0, 0), 2, [b0, b1])
  {
    WordByte(b0, b1, 0, 0, 0);
    WordByte(b0, b1, 0, 0, 1);
    hide ByteOf;
  }

  lemma FourBytesRead(b0: Byte, b1: Byte, b2: Byte, b3: Byte)
    ensures WordReads(Word(b0, b1, b2, b3), 4, [b0, b1, b2, b3])
  {
    hide ByteOf; hide Word;
    WordByte(b0, b1, b2, b3, 0);
    WordByte(b0, b1, b2, b3, 1);
    WordByte(b0, b1, b2, b3, 2);
    WordByte(b0, b1, b2, b3, 3);
  }

  lemma RxBytesRead(bpw: nat, w: nat, j: nat)
    requires WordSize(bpw) && j < bpw
    ensures RxBytes(bpw, w)[j] == ByteOf(w, j)
  {
  }

  /** Words lie one behind the other. */
  lemma PosIsProduct(bpw: nat, k: nat)
    requires WordSize(bpw)
    ensures Pos(bpw, k) == bpw * k
  {
  }

  lemma {:induction false} SentAt(tx: Option<seq<Byte>>, bpw: nat, n: nat, k: nat)
    requires WordSize(bpw) && k < n && (tx.Some? ==> Pos(bpw, n) <= |tx.value|)
    ensures tx.Some? ==> Pos(bpw, k + 1) <= |tx.value|
    ensures Sent(tx, bpw, n)[k] == TxWord(tx, bpw, k)
    ensures Sent(tx, bpw, n)[..k + 1] == Sent(tx, bpw, k + 1)
  {
    hide TxWord;
    PosMonotone(bpw, n - 1, n);
    PosMonotone(bpw, k + 1, n);
    if k < n - 1 { SentAt(tx, bpw, n - 1, k); }
  }

  lemma SentSendsBuffer(tx: Option<seq<Byte>>, bpw: nat, n: nat)
    requires WordSize(bpw) && (tx.Some? ==> Pos(bpw, n) <= |tx.value|)
    ensures SendsBuffer(tx, bpw, Sent(tx, bpw, n))
  {
    hide WordReads; hide Sent; hide WordSize; hide Pos;
    var sent := Sent(tx, bpw, n);
    forall k | 0 <= k < n
      ensures if tx.None? then sent[k] == 0 else SentWord(tx.value, bpw, sent, k)
    {
      SentAt(tx, bpw, n, k);
      if tx.Some? { TxWordReads(tx.value, bpw, k); }
    }
  }

  lemma {:induction false} ReceivedAt(device: Device, tx: Option<seq<Byte>>, bpw: nat, n: nat, k: nat, j: nat)
    requires WordSize(bpw) && k < n && j < bpw && (tx.Some? ==> Pos(bpw, n) <= |tx.value|)
    ensures tx.Some? ==> Pos(bpw, k + 1) <= |tx.value|
    ensures Pos(bpw, k) + j < Pos(bpw, n)
    ensures Received(device, tx, bpw, n)[Pos(bpw, k) + j] == ByteOf(device(Sent(tx, bpw, k + 1)), j)
  {
    hide RxBytes; hide ByteOf; hide Pos; hide WordSize;
    PosMonotone(bpw, n - 1, n);
    PosMonotone(bpw, k + 1, n);
    PosMonotone(bpw, k, k + 1);
    RxBytesRead(bpw, device(Sent(tx, bpw, n)), j);
    if k < n - 1 { ReceivedAt(device, tx, bpw, n - 1, k, j); }
  }

  /** The answers are at the start of the receive buffer, which may be longer. */
  lemma ReceivedStoresAnswers(device: Device, tx: Option<seq<Byte>>, bpw: nat, n: nat, rx: seq<Byte>)
    requires WordSize(bpw) && (tx.Some? ==> Pos(bpw, n) <= |tx.value|) && Received(device, tx, bpw, n) <= rx
    ensures StoresAnswers(device, bpw, Sent(tx, bpw, n), rx)
  {
    hide Sent; hide WordSize; hide Pos; hide ByteOf; hide Received;
    var sent := Sent(tx, bpw, n);
    forall k, j | 0 <= k < n && 0 <= j < bpw
      ensures StoredByte(device, bpw, sent, rx, k, j)
    {
      SentAt(tx, bpw, n, k);
      ReceivedAt(device, tx, bpw, n, k, j);
    }
  }

  /** A device that shifts back the word it has just been sent. */
  ghost predicate Echoes(device: Device) {
    forall s: seq<nat> :: s != [] ==> device(s) == s[|s| - 1]
  }

  lemma EchoOf(device: Device, tx: Option<seq<Byte>>, bpw: nat, k: nat)
    requires Echoes(device) && (tx.Some? ==> Pos(bpw, k + 1) <= |tx.value| && Pos(bpw, k) <= |tx.value|)
    ensures device(Sent(tx, bpw, k + 1)) == TxWord(tx, bpw, k)
  {
    var s := Sent(tx, bpw, k + 1);
    assert s == Sent(tx, bpw, k) + [TxWord(tx, bpw, k)];
    assert s[k] == TxWord(tx, bpw, k);
  }

  /** Echoed, a transfer gives back its transmit buffer. */
  lemma {:induction false} EchoReturnsTx(device: Device, tx: seq<Byte>, bpw: nat, k: nat)
    requires WordSize(bpw) && Pos(bpw, k) <= |tx| && Echoes(device)
    ensures Received(device, Some(tx), bpw, k) == tx[..Pos(bpw, k)]
  {
    hide TxWord; hide RxBytes; hide Received; hide Pos; hide Sent; hide Echoes; hide WordSize;
    NothingYet(device, Some(tx), bpw);
    if k > 0 {
      PosMonotone(bpw, k - 1, k);
      EchoReturnsTx(device, tx, bpw, k - 1);
      EchoOf(device, Some(tx), bpw, k - 1);
      EchoedWord(tx, bpw, k - 1);
      ReceivedPush(device, Some(tx), bpw, k - 1);
      var at, end := Pos(bpw, k - 1), Pos(bpw, k);
      assert tx[..at] + tx[at..end] == tx[..end];
    }
  }

  lemma EchoedWord(tx: seq<Byte>, bpw: nat, k: nat)
    requires WordSize(bpw) && Pos(bpw, k + 1) <= |tx|
    ensures RxBytes(bpw, TxWord(Some(tx), bpw, k)) == tx[Pos(bpw, k)..Pos(bpw, k + 1)]
  {
    hide Word; hide Unpack;
    if bpw == 1 {
      UnpackWord(tx[k], 0, 0, 0);
      OneByte(tx[k]);
    } else if bpw == 2 {
      UnpackWord(tx[2 * k], tx[2 * k + 1], 0, 0);
    } else {
      UnpackWord(tx[4 * k], tx[4 * k + 1], tx[4 * k + 2], tx[4 * k + 3]);
    }
  }

  lemma OneByte(b: Byte)
    ensures Word(b, 0, 0, 0) == b
  {
  }

  /** How many words a transfer of `len` words sends: the interrupt mode sends a first word before it looks
      at the length, so the modes differ on a transfer of none, and on no other. */
  function WordsDue(irq: bool, len: nat): nat {
    if irq && len == 0 then 1 else len
  }

  /** Interrupts and polling send the same words, and so receive the same bytes, exactly when there is at
      least one word to transfer. */
  lemma ModesAgree(device: Device, tx: Option<seq<Byte>>, bpw: nat, len: nat)
    requires tx.Some? ==> Pos(bpw, WordsDue(true, len)) <= |tx.value| && Pos(bpw, WordsDue(false, len)) <= |tx.value|
    ensures Sent(tx, bpw, WordsDue(true, len)) == Sent(tx, bpw, WordsDue(false, len)) <==> len >= 1
    ensures len >= 1 ==>
      Received(device, tx, bpw, WordsDue(true, len)) == Received(device, tx, bpw, WordsDue(false, len))
  {
    assert len == 0 ==> |Sent(tx, bpw, WordsDue(true, len))| == 1;
  }

  /** A transfer of no words sends the byte at the buffer in one mode and nothing in the other. */
  lemma NoWordsSendsOne()
    ensures Sent(Some([7]), 1, WordsDue(true, 0)) == [7]
    ensures Sent(Some([7]), 1, WordsDue(false, 0)) == []
  {
    assert Sent(Some([7]), 1, 1) == Sent(Some([7]), 1, 0) + [TxWord(Some([7]), 1, 0)];
  }

  // ---------------------------------------------------------------- the controller

  class Spi {
    const device: Device
    const irq: bool
    var tx: Option<seq<Byte>>
    var rxOn: bool
    var rx: array<Byte>
    var count: nat
    var len: nat
    var bytesPerWord: nat
    /** The receive interrupt enable bit of the control register. */
    var irrdy: bool
    var finalized: bool
    /** Words written to TXDATA, and whether one has been answered that was not read yet. */
    var sent: seq<nat>
    var pending: bool

    constructor (device: Device, irq: bool)
      ensures !irrdy && !pending && this.device == device && this.irq == irq
    {
      this.device, this.irq := device, irq;
      tx, rxOn, count, len, bytesPerWord := None, false, 0, 0, 1;
      irrdy, finalized, sent, pending := false, true, [], false;
      rx := new Byte[0];
    }

    /** The buffers hold the whole transfer. */
    predicate BuffersFit()
      reads this
    {
      WordSize(bytesPerWord) && (tx.Some? ==> Pos(bytesPerWord, WordsDue(irq, len)) <= |tx.value|) &&
      (rxOn ==> Pos(bytesPerWord, WordsDue(irq, len)) <= rx.Length)
    }

    /** `count` words have been received and `ahead` more sent; the receive buffer has the bytes of the
        words received and is otherwise as it was. */
    ghost predicate Progress(was: seq<Byte>, ahead: nat)
      reads this, rx
    {
      BuffersFit() && count + ahead <= WordsDue(irq, len) &&
      sent == Sent(tx, bytesPerWord, count + ahead) && |was| == rx.Length &&
      (if rxOn then rx[..] == Received(device, tx, bytesPerWord, count) + was[Pos(bytesPerWord, count)..]
       else rx[..] == was)
    }

    method TxWordOut(ghost was: seq<Byte>)
      requires Progress(was, 0) && count < WordsDue(irq, len) && !pending
      modifies this`sent, this`pending
      ensures Progress(was, 1) && pending
    {
      PosMonotone(bytesPerWord, count + 1, WordsDue(irq, len));
      sent := sent + [TxWord(tx, bytesPerWord, count)];
      pending := true;
    }

    method RxWordIn(ghost was: seq<Byte>)
      requires Progress(was, 1) && pending
      modifies this`count, this`pending, rx
      ensures Progress(was, 0) && !pending && count == old(count) + 1
    {
      hide Received; hide Sent; hide RxBytes; hide Pos; hide WordsDue;
      PosMonotone(bytesPerWord, count + 1, WordsDue(irq, len));
      var rxd := device(sent);
      ReceivedPush(device, tx, bytesPerWord, count);
      if rxOn {
        ghost var before := rx[..];
        var bytes := RxBytes(bytesPerWord, rxd);
        var at := Pos(bytesPerWord, count);
        StoreWord(at, bytes);
        Stored(before, rx[..], Received(device, tx, bytesPerWord, count), was, at, bytes);
      }
      pending := false;
      count := count + 1;
    }

    /** The byte stores of altera_spi_rx_word. */
    method StoreWord(at: nat, bytes: seq<Byte>)
      requires WordSize(bytesPerWord) && |bytes| == bytesPerWord && at + bytesPerWord <= rx.Length
      modifies rx
      ensures rx[..] == old(rx[..at]) + bytes + old(rx[at + bytesPerWord..])
    {
      rx[at] := bytes[0];
      if bytesPerWord >= 2 {
        rx[at + 1] := bytes[1];
      }
      if bytesPerWord == 4 {
        rx[at + 2] := bytes[2];
        rx[at + 3] := bytes[3];
      }
    }

    /** altera_spi_irq. */
    method Irq(ghost was: seq<Byte>)
      requires irq && Progress(was, 1) && pending && irrdy && !finalized
      modifies this`count, this`pending, this`sent, this`irrdy, this`finalized, rx
      ensures count == old(count) + 1
      ensures finalized <==> count == WordsDue(irq, len)
      ensures finalized ==> Progress(was, 0) && !irrdy && !pending
      ensures !finalized ==> Progress(was, 1) && irrdy && pending
    {
      RxWordIn(was);
      if count < len {
        TxWordOut(was);
      } else {
        irrdy := false;
        finalized := true;
      }
    }

    /** altera_spi_txrx and, with an interrupt line, the interrupts until the transfer is finalized. Either
        way all words are sent, least significant byte first, and the bytes received for them stored. `tx` and
        `rx` are the memory at the buffers; with no word to transfer the interrupt mode sends and stores one
        all the same, and its bytes are then part of that memory. */
    method Transfer(tx: Option<seq<Byte>>, rxOn: bool, rx: array<Byte>, bytes: nat, bytesPerWord: nat)
      requires WordSize(bytesPerWord) && !pending && !irrdy
      requires tx.Some? ==> bytes <= |tx.value| && Pos(bytesPerWord, WordsDue(irq, bytes / bytesPerWord)) <= |tx.value|
      requires rxOn ==> bytes <= rx.Length && Pos(bytesPerWord, WordsDue(irq, bytes / bytesPerWord)) <= rx.Length
      modifies this, rx
      ensures finalized && !irrdy && !pending && count == WordsDue(irq, bytes / bytesPerWord)
      ensures tx.Some? ==> Pos(bytesPerWord, count) <= |tx.value|
      ensures sent == Sent(tx, bytesPerWord, count)
      ensures rx[..] == if rxOn then
        Received(device, tx, bytesPerWord, count) + old(rx[..])[Pos(bytesPerWord, count)..]
      else old(rx[..])
      ensures SendsBuffer(tx, bytesPerWord, sent)
      ensures rxOn ==> StoresAnswers(device, bytesPerWord, sent, rx[..])
    {
      hide SendsBuffer; hide StoresAnswers; hide Received; hide Sent; hide Pos;
      Run(tx, rxOn, rx, bytes, bytesPerWord);
      SentSendsBuffer(tx, bytesPerWord, count);
      if rxOn { ReceivedStoresAnswers(device, tx, bytesPerWord, count, rx[..]); }
    }

    /** The transfer itself. */
    method Run(tx: Option<seq<Byte>>, rxOn: bool, rx: array<Byte>, bytes: nat, bytesPerWord: nat)
      requires WordSize(bytesPerWord) && !pending && !irrdy
      requires tx.Some? ==> bytes <= |tx.value| && Pos(bytesPerWord, WordsDue(irq, bytes / bytesPerWord)) <= |tx.value|
      requires rxOn ==> bytes <= rx.Length && Pos(bytesPerWord, WordsDue(irq, bytes / bytesPerWord)) <= rx.Length
      modifies this, rx
      ensures finalized && !irrdy && !pending && count == WordsDue(irq, bytes / bytesPerWord)
      ensures tx.Some? ==> Pos(bytesPerWord, count) <= |tx.value|
      ensures sent == Sent(tx, bytesPerWord, count)
      ensures rx[..] == if rxOn then
        Received(device, tx, bytesPerWord, count) + old(rx[..])[Pos(bytesPerWord, count)..]
      else old(rx[..])
    {
      hide Received; hide Sent; hide Pos; hide TxWord; hide RxBytes;
      NothingYet(device, tx, bytesPerWord);
      this.tx, this.rxOn, this.rx := tx, rxOn, rx;
      count, sent, finalized := 0, [], false;
      this.bytesPerWord := bytesPerWord;
      len := bytes / bytesPerWord;
      WholeWords(bytes, bytesPerWord);
      ghost var was := rx[..];
      if irq {
        irrdy := true;
        TxWordOut(was);
        Interrupts(was);
        return;
      }
      Poll(was);
    }

    /** Interrupts until the transfer is finalized. */
    method Interrupts(ghost was: seq<Byte>)
      requires irq && Progress(was, 1) && irrdy && pending && !finalized
      modifies this`count, this`pending, this`sent, this`irrdy, this`finalized, rx
      ensures Progress(was, 0) && finalized && !irrdy && !pending && count == WordsDue(irq, len)
    {
      hide Received; hide Sent; hide Pos; hide TxWord; hide RxBytes; hide WordSize;
      while !finalized
        invariant if finalized then Progress(was, 0) && !irrdy && !pending && count == WordsDue(irq, len)
          else Progress(was, 1) && irrdy && pending
        decreases WordsDue(irq, len) - count, !finalized
      {
        Irq(was);
      }
    }

    /** The polling loop. */
    method Poll(ghost was: seq<Byte>)
      requires !irq && Progress(was, 0) && !pending && !irrdy
      modifies this`count, this`pending, this`sent, this`finalized, rx
      ensures Progress(was, 0) && finalized && !pending && count == WordsDue(irq, len)
    {
      hide Received; hide Sent; hide Pos; hide TxWord; hide RxBytes; hide WordSize;
      while count < len
        invariant Progress(was, 0) && !pending
        decreases len - count
      {
        TxWordOut(was);
        RxWordIn(was);
      }
      finalized := true;
    }
  }

  lemma PosMonotone(bpw: nat, j: nat, k: nat)
    requires j <= k && WordSize(bpw)
    ensures Pos(bpw, j) <= Pos(bpw, k)
    ensures j > 0 ==> Pos(bpw, j) == Pos(bpw, j - 1) + bpw
  {
  }

  lemma NothingYet(device: Device, tx: Option<seq<Byte>>, bpw: nat)
    ensures Pos(bpw, 0) == 0 && (tx.Some? ==> Pos(bpw, 0) <= |tx.value|)
    ensures Sent(tx, bpw, 0) == [] && Received(device, tx, bpw, 0) == []
  {
  }

  lemma WholeWords(bytes: nat, bpw: nat)
    requires WordSize(bpw)
    ensures Pos(bpw, bytes / bpw) <= bytes
    ensures bytes >= bpw ==> bytes / bpw > 0
  {
  }

  lemma Stored(before: seq<Byte>, after: seq<Byte>, got: seq<Byte>, was: seq<Byte>, at: nat, bytes: seq<Byte>)
    requires |before| == |after| == |was| && at == |got| && at + |bytes| <= |was| && before == got + was[at..]
    requires after == before[..at] + bytes + before[at + |bytes|..]
    ensures after == got + bytes + was[at + |bytes|..]
  {
  }
}
