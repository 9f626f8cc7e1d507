/** Bytes to little-endian 32-bit words and back: how the drivers feed byte images to word-wide ports. */
module Packing {
  import opened Common

  function Word(b0: Byte, b1: Byte, b2: Byte, b3: Byte): nat {
    b0 + 0x100 * b1 + 0x1_0000 * b2 + 0x100_0000 * b3
  }

  function At(bs: seq<Byte>, i: nat): Byte {
    if i < |bs| then bs[i] else 0
  }

  /** The little-endian words of a byte sequence, the last one padded with zero bytes. */
  function Words(bs: seq<Byte>): (ws: seq<nat>)
    ensures |ws| == (|bs| + 3) / 4
    decreases |bs|
  {
    if bs == [] then
      []
    else
      [Word(bs[0], At(bs, 1), At(bs, 2), At(bs, 3))] + Words(if |bs| < 4 then [] else bs[4..])
  }

  function Unpack(w: nat): (bs: seq<Byte>)
    ensures |bs| == 4
  {
    [w % 256, w / 0x100 % 256, w / 0x1_0000 % 256, w / 0x100_0000 % 256]
  }

  function UnpackAll(ws: seq<nat>): (bs: seq<Byte>)
    ensures |bs| == 4 * |ws|
  {
    if ws == [] then [] else Unpack(ws[0]) + UnpackAll(ws[1..])
  }

  lemma UnpackWord(b0: Byte, b1: Byte, b2: Byte, b3: Byte)
    ensures Unpack(Word(b0, b1, b2, b3)) == [b0, b1, b2, b3]
  {
    var w := Word(b0, b1, b2, b3);
    assert w / 0x100 == b1 + 0x100 * b2 + 0x1_0000 * b3;
    assert w / 0x1_0000 == b2 + 0x100 * b3;
    assert w / 0x100_0000 == b3;
  }

  /** What the device unpacks from the words is the bytes, followed by at most three zero bytes. */
  lemma {:induction false} PackedExactly(bs: seq<Byte>)
    ensures |bs| <= |UnpackAll(Words(bs))| < |bs| + 4
    ensures UnpackAll(Words(bs))[..|bs|] == bs
    ensures forall i :: |bs| <= i < |UnpackAll(Words(bs))| ==> UnpackAll(Words(bs))[i] == 0
    decreases |bs|
  {
    if bs != [] {
      var rest := if |bs| < 4 then [] else bs[4..];
      PackedExactly(rest);
      UnpackWord(bs[0], At(bs, 1), At(bs, 2), At(bs, 3));
      var all := UnpackAll(Words(bs));
      assert Words(bs)[1..] == Words(rest);
      assert all == [bs[0], At(bs, 1), At(bs, 2), At(bs, 3)] + UnpackAll(Words(rest));
      hide Words; hide UnpackAll;
      forall i | 0 <= i < |bs|
        ensures all[i] == bs[i]
      {
        if i >= 4 {
          assert all[i] == UnpackAll(Words(rest))[..|rest|][i - 4];
        }
      }
      assert all[..|bs|] == bs;
    }
  }

  /** Byte j of a word, the least significant one first. */
  function ByteOf(w: nat, j: nat): Byte {
    if j == 0 then w % 0x100
    else if j == 1 then w / 0x100 % 0x100
    else if j == 2 then w / 0x1_0000 % 0x100
    else w / 0x100_0000 % 0x100
  }

  /** Byte j of word k is byte 4 k + j, or a padding zero. */
  lemma {:induction false} LittleEndian(bs: seq<Byte>, k: nat, j: nat)
    requires k < |Words(bs)| && j < 4
    ensures ByteOf(Words(bs)[k], j) == At(bs, 4 * k + j) && Words(bs)[k] < 0x1_0000_0000
    decreases |bs|
  {
    hide Word; hide ByteOf;
    if k == 0 {
      WordByte(bs[0], At(bs, 1), At(bs, 2), At(bs, 3), j);
    } else {
      LittleEndian(bs[4..], k - 1, j);
    }
  }

  lemma WordByte(b0: Byte, b1: Byte, b2: Byte, b3: Byte, j: nat)
    requires j < 4
    ensures ByteOf(Word(b0, b1, b2, b3), j) == if j == 0 then b0 else if j == 1 then b1 else if j == 2 then b2 else b3
    ensures Word(b0, b1, b2, b3) < 0x1_0000_0000
  {
    UnpackWord(b0, b1, b2, b3);
    ByteUnpacked(Word(b0, b1, b2, b3), j);
    hide Unpack; hide ByteOf;
  }

  lemma ByteUnpacked(w: nat, j: nat)
    requires j < 4
    ensures ByteOf(w, j) == Unpack(w)[j]
  {
  }

  /** Splitting at a word boundary splits the words. */
  lemma {:induction false} WordsSplit(a: seq<Byte>, b: seq<Byte>)
    requires |a| % 4 == 0
    ensures Words(a + b) == Words(a) + Words(b)
    decreases |a|
  {
    if a == [] {
      assert a + b == b;
    } else {
      assert (a + b)[4..] == a[4..] + b;
      WordsSplit(a[4..], b);
    }
  }

  lemma {:induction false} UnpackSplit(a: seq<nat>, b: seq<nat>)
    ensures UnpackAll(a + b) == UnpackAll(a) + UnpackAll(b)
  {
    if a == [] {
      assert a + b == b;
    } else {
      assert (a + b)[1..] == a[1..] + b;
      UnpackSplit(a[1..], b);
    }
  }

  lemma NoWords()
    ensures Words([]) == []
  {
  }

  /** One more whole word. */
  lemma WordsPush(data: seq<Byte>, i: nat)
    requires 4 * i + 4 <= |data|
    ensures Words(data[..4 * (i + 1)]) ==
            Words(data[..4 * i]) + [Word(data[4 * i], data[4 * i + 1], data[4 * i + 2], data[4 * i + 3])]
  {
    hide Words; hide Word;
    var w := data[4 * i..4 * i + 4];
    WordsSplit(data[..4 * i], w);
    assert data[..4 * i] + w == data[..4 * (i + 1)];
    OneWord(w);
  }

  lemma OneWord(bs: seq<Byte>)
    requires 0 < |bs| <= 4
    ensures Words(bs) == [Word(bs[0], At(bs, 1), At(bs, 2), At(bs, 3))]
  {
  }

  lemma MaskOne(b0: Byte, high: nat)
    ensures (b0 + 0x100 * high) % 0x100 == b0
  {
  }

  lemma MaskTwo(low: nat, high: nat)
    requires low < 0x1_0000
    ensures (low + 0x1_0000 * high) % 0x1_0000 == low
  {
  }

  lemma MaskThree(low: nat, high: nat)
    requires low < 0x100_0000
    ensures (low + 0x100_0000 * high) % 0x100_0000 == low
  {
  }

  lemma FirstByte(b0: Byte, b1: Byte, b2: Byte, b3: Byte)
    ensures Word(b0, b1, b2, b3) % 0x100 == Word(b0, 0, 0, 0)
  {
    var high := b1 + 0x100 * b2 + 0x1_0000 * b3;
    assert Word(b0, b1, b2, b3) == b0 + 0x100 * high;
    MaskOne(b0, high);
  }

  lemma FirstTwoBytes(b0: Byte, b1: Byte, b2: Byte, b3: Byte)
    ensures Word(b0, b1, b2, b3) % 0x1_0000 == Word(b0, b1, 0, 0)
  {
    var high := b2 + 0x100 * b3;
    assert Word(b0, b1, b2, b3) == (b0 + 0x100 * b1) + 0x1_0000 * high;
    MaskTwo(b0 + 0x100 * b1, high);
  }

  /** Masking a word keeps its low bytes. */
  lemma MaskedWord(b0: Byte, b1: Byte, b2: Byte, b3: Byte, remainder: nat)
    requires 0 < remainder < 4
    ensures Word(b0, b1, b2, b3) % Mask(remainder) ==
            Word(b0, if remainder > 1 then b1 else 0, if remainder > 2 then b2 else 0, 0)
  {
    if remainder == 1 {
      FirstByte(b0, b1, b2, b3);
    } else if remainder == 2 {
      FirstTwoBytes(b0, b1, b2, b3);
    } else {
      MaskThree(b0 + 0x100 * b1 + 0x1_0000 * b2, b3);
    }
  }

  /** The word at the start of some bytes, as memory holds it: bytes past their end are anything. */
  function Read(bs: seq<Byte>, past1: Byte, past2: Byte, past3: Byte): nat
    requires 0 < |bs| < 4
  {
    Word(bs[0], if |bs| > 1 then bs[1] else past1, if |bs| > 2 then bs[2] else past2, past3)
  }

  /** Masking away what was read past the end leaves the bytes that are there. */
  lemma MaskedTail(bs: seq<Byte>, past1: Byte, past2: Byte, past3: Byte)
    requires 0 < |bs| < 4
    ensures Words(bs) == [Read(bs, past1, past2, past3) % Mask(|bs|)]
  {
    OneWord(bs);
    hide Words; hide Word;
    MaskedWord(bs[0], if |bs| > 1 then bs[1] else past1, if |bs| > 2 then bs[2] else past2, past3, |bs|);
  }

  /** BIT(remainder * 8): one more than the mask of the trailing bytes. */
  function Mask(remainder: nat): (m: nat)
    requires 0 < remainder < 4
    ensures m > 0
  {
    if remainder == 1 then 0x100 else if remainder == 2 then 0x1_0000 else 0x100_0000
  }
}
