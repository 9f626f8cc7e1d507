/** Writing the card's flash: the FIFO of drivers/mfd/intel-m10-bmc-pmci.c and the staging area that
    drivers/fpga/intel-m10-bmc-sec-update.c writes when there is no such FIFO. */
module Pmci {
  import opened Common
  import opened Packing

  const FIFO_MAX_BYTES: nat := 0x800
  const STRIDE: nat := 4
  const EIO: int := 5

  /** The words a bulk write puts into the FIFO: the buffer in chunks of the FIFO's size, of each chunk
      the whole words only; less than a word left over at the start of a round is padded with zeros. */
  function Fifo(buf: seq<Byte>): seq<nat>
    decreases |buf|
  {
    if |buf| < 4 then
      Words(buf)
    else
      var blk := if FIFO_MAX_BYTES < |buf| then FIFO_MAX_BYTES else |buf|;
      Words(buf[..blk - blk % 4]) + Fifo(buf[blk..])
  }

  /** The sizes a bulk write gets right. */
  predicate WholeInFifo(size: nat) {
    size % 4 == 0 || size % FIFO_MAX_BYTES < 4
  }

  /** What the FIFO gets is the packing of the buffer, short of its last word unless the size is one the
      loop handles: a multiple of four, or fewer than four bytes past a whole number of FIFO fills. */
  lemma {:induction false} FifoIsPacking(buf: seq<Byte>)
    ensures Fifo(buf) == if WholeInFifo(|buf|) then Words(buf) else Words(buf[..|buf| - |buf| % 4])
    decreases |buf|
  {
    hide Words; hide WholeInFifo;
    if |buf| < 4 {
      SmallIsWhole(|buf|);
    } else {
      var blk := if FIFO_MAX_BYTES < |buf| then FIFO_MAX_BYTES else |buf|;
      var first, rest := buf[..blk - blk % 4], buf[blk..];
      FifoIsPacking(rest);
      if blk == |buf| {
        NoWords();
        LastFill(|buf|);
        assert rest == [];
        assert Words(first) + [] == Words(first);
        if |buf| % 4 == 0 { assert first == buf; }
      } else {
        SizeLess(|buf|);
        if WholeInFifo(|buf|) {
          assert first + rest == buf;
          WordsSplit(first, rest);
        } else {
          var kept := rest[..|rest| - |rest| % 4];
          assert first + kept == buf[..|buf| - |buf| % 4];
          WordsSplit(first, kept);
        }
      }
    }
  }

  lemma SmallIsWhole(size: nat)
    requires size < 4
    ensures WholeInFifo(size)
  {
  }

  lemma LastFill(size: nat)
    requires 4 <= size <= FIFO_MAX_BYTES
    ensures WholeInFifo(size) <==> size % 4 == 0
  {
  }

  lemma SizeLess(size: nat)
    requires size >= FIFO_MAX_BYTES
    ensures WholeInFifo(size - FIFO_MAX_BYTES) == WholeInFifo(size)
    ensures (size - FIFO_MAX_BYTES) % 4 == size % 4
  {
    FillLess(size);
    WordsLess(size);
  }

  lemma FillLess(size: nat)
    requires size >= FIFO_MAX_BYTES
    ensures (size - FIFO_MAX_BYTES) % FIFO_MAX_BYTES == size % FIFO_MAX_BYTES
  {
  }

  lemma WordsLess(size: nat)
    requires size >= FIFO_MAX_BYTES
    ensures (size - FIFO_MAX_BYTES) % 4 == size % 4
  {
  }

  /** A partial last word counts as one more. */
  lemma WordsWhole(buf: seq<Byte>)
    ensures WholeInFifo(|buf|) || |buf| % 4 != 0
    ensures |Words(buf)| == |Words(buf[..|buf| - |buf| % 4])| + if |buf| % 4 == 0 then 0 else 1
  {
    hide Words;
  }

  /** The flash gets every byte exactly for those sizes, whatever the bytes are. */
  lemma FifoExact(buf: seq<Byte>)
    ensures Fifo(buf) == Words(buf) <==> WholeInFifo(|buf|)
    ensures Fifo(buf) <= Words(buf) && |Words(buf)| <= |Fifo(buf)| + 1
  {
    hide Fifo; hide Words; hide WholeInFifo;
    FifoIsPacking(buf);
    WordsWhole(buf);
    var whole := buf[..|buf| - |buf| % 4];
    WordsSplit(whole, buf[|whole|..]);
    assert whole + buf[|whole|..] == buf;
  }

  /** Of five bytes the fifth never reaches the FIFO. */
  lemma FifthByteLost(buf: seq<Byte>)
    requires |buf| == 5
    ensures Fifo(buf) == Words(buf[..4]) && |Words(buf)| == 2
  {
    hide Words;
    FifoIsPacking(buf);
  }

  /** A whole chunk goes behind the chunks before it. */
  lemma OneMoreFill(buf: seq<Byte>, chunk: nat)
    requires FIFO_MAX_BYTES * (chunk + 1) <= |buf|
    ensures Words(buf[..FIFO_MAX_BYTES * (chunk + 1)]) ==
            Words(buf[..FIFO_MAX_BYTES * chunk]) + Words(buf[FIFO_MAX_BYTES * chunk..FIFO_MAX_BYTES * (chunk + 1)])
  {
    hide Words;
    var at, end := FIFO_MAX_BYTES * chunk, FIFO_MAX_BYTES * (chunk + 1);
    WordsSplit(buf[..at], buf[at..end]);
    assert buf[..at] + buf[at..end] == buf[..end];
  }

  /** What the loop has written when it has come to `offset`, a number of whole chunks or the end. */
  ghost predicate Filled(buf: seq<Byte>, offset: nat, chunk: nat, fifo: seq<nat>) {
    offset <= |buf| && fifo + Fifo(buf[offset..]) == Fifo(buf) &&
    if offset < |buf| then offset == FIFO_MAX_BYTES * chunk && fifo == Words(buf[..offset])
    else |buf| <= FIFO_MAX_BYTES * chunk
  }

  lemma NothingFilled(buf: seq<Byte>)
    ensures Filled(buf, 0, 0, [])
  {
    NoWords();
    assert buf[0..] == buf;
  }

  lemma FillStep(buf: seq<Byte>, offset: nat, blk: nat, chunk: nat, fifo: seq<nat>)
    requires Filled(buf, offset, chunk, fifo) && |buf| - offset >= 4
    requires blk == if FIFO_MAX_BYTES < |buf| - offset then FIFO_MAX_BYTES else |buf| - offset
    ensures Filled(buf, offset + blk, chunk + 1, fifo + Words(buf[offset..offset + 4 * (blk / 4)]))
  {
    hide Words;
    var rest := buf[offset..];
    assert blk - blk % 4 == 4 * (blk / 4);
    assert rest[..4 * (blk / 4)] == buf[offset..offset + 4 * (blk / 4)];
    assert rest[blk..] == buf[offset + blk..];
    if blk < |buf| - offset { OneMoreFill(buf, chunk); }
  }

  lemma FillStops(buf: seq<Byte>, offset: nat, chunk: nat, fifo: seq<nat>)
    requires Filled(buf, offset, chunk, fifo) && offset < |buf|
    ensures FIFO_MAX_BYTES * chunk < |buf| && fifo == Words(buf[..FIFO_MAX_BYTES * chunk]) && fifo <= Fifo(buf)
  {
  }

  lemma FillDone(buf: seq<Byte>, offset: nat, size: nat, chunk: nat, fifo: seq<nat>)
    requires offset + size == |buf| && size < 4 && (size > 0 ==> chunk > 0)
    requires if size > 0 then Filled(buf, offset, chunk - 1, fifo) else Filled(buf, offset, chunk, fifo)
    ensures (if size > 0 then fifo + Words(buf[offset..]) else fifo) == Fifo(buf)
    ensures |buf| <= FIFO_MAX_BYTES * chunk
  {
    assert size == 0 ==> buf[offset..] == [];
  }

  /** pmci_flash_bulk_write: waits for an empty FIFO before every chunk; `timesOut` says whether the wait
      before a chunk does, and `fifo` is what was written. It fails only for a wait that times out, with the
      chunks before it written. */
  method FlashBulkWrite(buf: seq<Byte>, timesOut: nat -> bool) returns (ret: int, fifo: seq<nat>)
    ensures ret == 0 || ret == -EIO
    ensures ret == 0 <==> forall k: nat :: FIFO_MAX_BYTES * k < |buf| ==> !timesOut(k)
    ensures ret != 0 ==>
      exists k: nat :: timesOut(k) && FIFO_MAX_BYTES * k < |buf| && fifo == Words(buf[..FIFO_MAX_BYTES * k])
    ensures ret == 0 ==> fifo == Fifo(buf)
    ensures fifo <= Fifo(buf)
  {
    hide Words; hide Fifo; hide Filled;
    fifo := [];
    NothingFilled(buf);
    var size: nat, offset: nat, chunk: nat := |buf|, 0, 0;
    while size > 0
      invariant offset + size == |buf| && Filled(buf, offset, chunk, fifo)
      invariant forall k: nat :: k < chunk ==> !timesOut(k)
    {
      var space := if timesOut(chunk) then 0 else FIFO_MAX_BYTES;
      var blk := if space < size then space else size;
      if blk == 0 {
        FillStops(buf, offset, chunk, fifo);
        return -EIO, fifo;
      }
      chunk := chunk + 1;
      if size < 4 {
        break;
      }
      var count := blk / 4;
      FillStep(buf, offset, blk, chunk - 1, fifo);
      fifo := fifo + Words(buf[offset..offset + 4 * count]);
      size := size - blk;
      offset := offset + blk;
    }
    FillDone(buf, offset, size, chunk, fifo);
    if size > 0 {
      fifo := fifo + Words(buf[offset..]);
    }
    ret := 0;
  }

  // ---------------------------------------------------------------- the staging area

  /** The words m10bmc_sec_write puts into consecutive staging registers for a block of the image when
      there are no bulk operations. The odd bytes at the end are taken from the start of the image, not of
      the block. */
  function Staged(image: seq<Byte>, offset: nat, size: nat): seq<nat>
    requires offset + size <= |image|
  {
    var whole := size - size % STRIDE;
    Words(image[offset..offset + whole]) + (if size > whole then Words(image[whole..size]) else [])
  }

  lemma StagedWhole(image: seq<Byte>, offset: nat, size: nat)
    requires offset + size <= |image| && (size % STRIDE == 0 || offset == 0)
    ensures Staged(image, offset, size) == Words(image[offset..offset + size])
  {
    hide Words;
    var whole := size - size % STRIDE;
    WordsSplit(image[offset..offset + whole], image[offset + whole..offset + size]);
    assert image[offset..offset + whole] + image[offset + whole..offset + size] == image[offset..offset + size];
  }

  lemma DifferentWords(a0: Byte, a1: Byte, a2: Byte, a3: Byte, b0: Byte, b1: Byte, b2: Byte, b3: Byte)
    requires a0 != b0
    ensures Word(a0, a1, a2, a3) != Word(b0, b1, b2, b3)
  {
    UnpackWord(a0, a1, a2, a3);
    UnpackWord(b0, b1, b2, b3);
  }

  /** One block is staged as it is exactly when it has no odd bytes or they are those taken for them. */
  lemma StagedBlockExact(image: seq<Byte>, offset: nat, size: nat)
    requires offset + size <= |image|
    ensures Staged(image, offset, size) == Words(image[offset..offset + size]) <==>
            size % STRIDE == 0 ||
            image[size - size % STRIDE..size] == image[offset + size - size % STRIDE..offset + size]
  {
    hide Words;
    var whole := size - size % STRIDE;
    var a, b, c := image[offset..offset + whole], image[offset + whole..offset + size], image[whole..size];
    assert a + b == image[offset..offset + size];
    WordsSplit(a, b);
    NoWords();
    if size % STRIDE != 0 {
      EndsAgree(a, b, c);
    }
  }

  lemma EndsAgree(a: seq<Byte>, b: seq<Byte>, c: seq<Byte>)
    requires |b| == |c|
    ensures Words(a) + Words(b) == Words(a) + Words(c) <==> b == c
  {
    hide Words;
    if Words(a) + Words(b) == Words(a) + Words(c) {
      assert Words(b) == (Words(a) + Words(b))[|Words(a)|..];
      assert Words(c) == (Words(a) + Words(c))[|Words(a)|..];
      PackedExactly(b);
      PackedExactly(c);
    }
  }

  /** Two ends of less than a word that start differently pack differently. */
  lemma DifferentEnds(a: seq<Byte>, b: seq<Byte>, c: seq<Byte>)
    requires 0 < |b| < STRIDE && 0 < |c| < STRIDE && b[0] != c[0]
    ensures Words(a) + Words(b) != Words(a) + Words(c)
  {
    hide Words; hide Word;
    OneWord(b);
    OneWord(c);
    DifferentWords(b[0], At(b, 1), At(b, 2), At(b, 3), c[0], At(c, 1), At(c, 2), At(c, 3));
    assert (Words(a) + Words(b))[|Words(a)|] == Words(b)[0];
    assert (Words(a) + Words(c))[|Words(a)|] == Words(c)[0];
  }

  /** An image whose odd bytes at the end of a later block are staged wrongly. */
  lemma StagedWrong(n: nat, offset: nat, size: nat) returns (image: seq<Byte>)
    requires offset + size <= n && size % STRIDE != 0 && offset != 0
    ensures |image| == n && Staged(image, offset, size) != Words(image[offset..offset + size])
  {
    hide Words;
    var whole := size - size % STRIDE;
    image := seq(n, i requires 0 <= i < n => if i == offset + whole then 1 as Byte else 0);
    var a, b, c := image[offset..offset + whole], image[offset + whole..offset + size], image[whole..size];
    assert a + b == image[offset..offset + size];
    WordsSplit(a, b);
    assert b[0] == 1 && c[0] == 0;
    DifferentEnds(a, b, c);
  }

  /** A block is staged as it is for every image exactly when it is a whole number of words or the first
      block. */
  lemma StagedExact(n: nat, offset: nat, size: nat)
    requires offset + size <= n
    ensures (forall image: seq<Byte> :: |image| == n ==>
              Staged(image, offset, size) == Words(image[offset..offset + size]))
            <==> (size % STRIDE == 0 || offset == 0)
  {
    if size % STRIDE == 0 || offset == 0 {
      forall image: seq<Byte> | |image| == n
        ensures Staged(image, offset, size) == Words(image[offset..offset + size])
      {
        StagedWhole(image, offset, size);
      }
    } else {
      var image := StagedWrong(n, offset, size);
    }
  }
}
