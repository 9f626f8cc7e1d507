/** Configuration via PCIe, drivers/fpga/altera-cvp.c: an image is written word by word in blocks, each
    block only after the device has granted credit for it in an 8-bit register. */
module Cvp {
  import opened Arithmetic
  import opened Common
  import opened Packing

  const EPROTO: int := 71
  const EAGAIN: int := 11
  const ETIMEDOUT: int := 110

  const V1_SIZE: nat := 4
  const V2_SIZE: nat := 4096
  const CREDIT_POLLS: nat := 20000 / 10
  const U32: nat := 0x1_0000_0000

  // ---------------------------------------------------------------- credit

  /** The 8-bit register shows the granted total modulo 256, and the driver compares it with its own count
      modulo 256. Of granted and sent totals this tells "there is room" exactly as long as the device is
      not ahead by a positive multiple of 256. */
  lemma CreditVisible(granted: nat, sent: nat)
    requires sent <= granted
    ensures (granted % 256 != sent % 256 <==> sent < granted) <==> (granted == sent || (granted - sent) % 256 != 0)
  {
    assert granted == 256 * (granted / 256) + granted % 256;
    assert sent == 256 * (sent / 256) + sent % 256;
    var ahead := granted - sent;
    assert ahead == 256 * (ahead / 256) + ahead % 256;
    if granted % 256 == sent % 256 {
      Multiple(ahead, granted / 256 - sent / 256);
    }
    if ahead % 256 == 0 {
      var k := ahead / 256;
      Remainder(sent, k);
    }
  }

  lemma Multiple(x: int, k: int)
    requires x == 256 * k
    ensures x % 256 == 0
  {
  }

  lemma Remainder(x: int, k: int)
    ensures (x + 256 * k) % 256 == x % 256
  {
  }

  /** The u32 packet count wraps, its low byte does not notice. */
  lemma WrapKeepsLowByte(sent: nat)
    ensures (sent % U32) % 256 == sent % 256
  {
    var q := sent / U32;
    assert sent == U32 * q + sent % U32;
    Remainder(sent % U32, 0x100_0000 * q);
  }

  lemma WrapStep(sent: nat)
    ensures ((sent % U32) + 1) % U32 == (sent + 1) % U32
  {
  }

  // ---------------------------------------------------------------- the driver

  class Conf {
    const v2: bool
    const chkcfg: bool
    var sentPackets: nat
    /** Words written to the data register. */
    var written: seq<nat>
    /** Reads of the credit register. */
    var polls: nat
    /** The device's side: blocks it has received and credits it has granted in all. */
    var sent: nat
    var granted: nat
    /** Words written when the error flag was last found clear, and at all checks that found it clear. */
    ghost var clearAt: nat
    ghost var checks: set<nat>
    /** Blocks sent when a check first found the flag set or unreadable; a credit register that could not be
        read. */
    ghost var flaggedAt: Option<nat>
    ghost var unread: bool

    /** The driver has never sent past the credit granted; the device stays at most 255 blocks ahead. */
    predicate Valid()
      reads this
    {
      sentPackets == sent % U32 && (v2 ==> sent <= granted <= sent + 255)
    }

    function BlockSize(): nat {
      if v2 then V2_SIZE else V1_SIZE
    }

    /** After write_init. */
    constructor (v2: bool, chkcfg: bool)
      ensures Valid() && this.v2 == v2 && this.chkcfg == chkcfg && written == [] && sent == 0
    {
      this.v2, this.chkcfg := v2, chkcfg;
      sentPackets, written, polls, sent, granted, clearAt := 0, [], 0, 0, 0, 0;
      checks, flaggedAt, unread := {}, None, false;
    }

    /** The device grants more credit, or none, at any time. */
    method Grant()
      requires Valid()
      modifies this`granted
      ensures Valid() && granted >= old(granted)
    {
      var g: nat :| g >= granted && (g == granted || g <= sent + 255);
      granted := g;
    }

    /** altera_cvp_chk_error: the read may fail and the error bit may be set. */
    method ChkError() returns (ret: int)
      modifies this`clearAt, this`checks, this`flaggedAt
      ensures ret == 0 || ret == -EPROTO
      ensures clearAt == if ret == 0 then |written| else old(clearAt)
      ensures checks == if ret == 0 then old(checks) + {|written|} else old(checks)
      ensures flaggedAt == if ret == 0 || old(flaggedAt).Some? then old(flaggedAt) else Some(sent)
    {
      var bad: bool := *;
      if !bad {
        clearAt := |written|;
        checks := checks + {|written|};
      } else if flaggedAt.None? {
        flaggedAt := Some(sent);
      }
      ret := if bad then -EPROTO else 0;
    }

    /** altera_cvp_v2_wait_for_credit: 0 only when the device has room for one more block; ETIMEDOUT only
        after 2001 reads, EAGAIN only after a check that failed, and neither when there was room all along. */
    method WaitForCredit() returns (ret: int, ghost readFailed: bool)
      requires Valid() && v2
      modifies this`granted, this`polls, this`clearAt, this`checks, this`flaggedAt, this`unread
      ensures Valid() && granted >= old(granted) && old(checks) <= checks
      ensures unread == (old(unread) || readFailed)
      ensures flaggedAt == if !readFailed && ret == -EAGAIN && old(flaggedAt).None? then Some(sent) else old(flaggedAt)
      ensures ret != 0 && !readFailed ==> old(granted) == sent
      ensures ret == 0 ==> sent < granted
      ensures old(polls) < polls <= old(polls) + CREDIT_POLLS + 1
      ensures if readFailed then ret != 0 else ret in {0, -EAGAIN, -ETIMEDOUT}
      ensures !readFailed && ret == -ETIMEDOUT ==> polls == old(polls) + CREDIT_POLLS + 1
    {
      var timeout: int := CREDIT_POLLS;
      while timeout >= 0
        invariant -1 <= timeout <= CREDIT_POLLS && polls == old(polls) + CREDIT_POLLS - timeout
        invariant Valid() && granted >= old(granted) && old(checks) <= checks
        invariant unread == old(unread) && flaggedAt == old(flaggedAt)
        invariant timeout < CREDIT_POLLS ==> old(granted) == sent
      {
        Grant();
        polls := polls + 1;
        var answer: int := *;
        if answer != 0 {
          unread := true;
          return answer, true;
        }
        var val := granted % 256;
        WrapKeepsLowByte(sent);
        CreditVisible(granted, sent);
        if val != sentPackets % 256 {
          return 0, false;
        }
        var err := ChkError();
        if err != 0 {
          return -EAGAIN, false;
        }
        timeout := timeout - 1;
      }
      ret, readFailed := -ETIMEDOUT, false;
    }

    /** altera_cvp_send_block. Words are read from memory, so the last one may take in up to three bytes
        past the end of the image; they are masked off. */
    method SendBlock(data: seq<Byte>)
      requires Valid() && 0 < |data| <= BlockSize() && (v2 ==> sent < granted)
      modifies this`written
      ensures written == old(written) + Words(data)
    {
      hide Words; hide Mask; hide Word;
      var words := |data| / 4;
      var i := 0;
      NoWords();
      while i < words
        invariant 0 <= i <= words && written == old(written) + Words(data[..4 * i])
      {
        WordsPush(data, i);
        written := written + [Word(data[4 * i], data[4 * i + 1], data[4 * i + 2], data[4 * i + 3])];
        i := i + 1;
      }
      var remainder := |data| % 4;
      if remainder != 0 {
        var tail := data[4 * words..];
        var past1 := AnyByte();
        var past2 := AnyByte();
        var past3 := AnyByte();
        MaskedTail(tail, past1, past2, past3);
        written := written + [Read(tail, past1, past2, past3) % Mask(remainder)];
        WordsSplit(data[..4 * words], tail);
        assert data[..4 * words] + tail == data;
      } else {
        assert data[..4 * words] == data;
      }
    }

    /** One round of altera_cvp_write after the wait: the next block, counted in the wrapping counter. */
    method SendNext(image: seq<Byte>, done: nat, ghost before: seq<nat>) returns (len: nat)
      requires Valid() && done < |image| && done % 4 == 0 && (v2 ==> sent < granted)
      requires written == before + Words(image[..done])
      modifies this`written, this`sentPackets, this`sent
      ensures len == if BlockSize() < |image| - done then BlockSize() else |image| - done
      ensures Valid() && sent == old(sent) + 1 && written == before + Words(image[..done + len])
    {
      hide Words;
      len := if BlockSize() < |image| - done then BlockSize() else |image| - done;
      SendBlock(image[done..done + len]);
      WordsSplit(image[..done], image[done..done + len]);
      assert image[..done] + image[done..done + len] == image[..done + len];
      WrapStep(sent);
      sentPackets := (sentPackets + 1) % U32;
      sent := sent + 1;
    }

    /** How far into an image a number of blocks reaches. */
    function Reach(blocks: nat, size: nat): nat {
      var span := if v2 then V2_SIZE * blocks else V1_SIZE * blocks;
      if span < size then span else size
    }

    lemma ReachZero(size: nat)
      ensures Reach(0, size) == 0
    {
    }

    lemma ReachStep(blocks: nat, size: nat)
      requires Reach(blocks, size) < size
      ensures Reach(blocks, size) % 4 == 0 && (v2 ==> Reach(blocks, size) % V2_SIZE == 0)
      ensures var done := Reach(blocks, size);
        Reach(blocks + 1, size) == done + if BlockSize() < size - done then BlockSize() else size - done
    {
      WholeBlocks(blocks);
    }

    /** A failure has a cause: an unreadable register, the error flag, or a full wait for credit. */
    ghost predicate FailsForCause(status: int, pollsBefore: nat)
      reads this
    {
      status != 0 ==> unread || flaggedAt.Some? || (v2 && status == -ETIMEDOUT && polls > pollsBefore + CREDIT_POLLS)
    }

    /** Nothing is sent after a check that found the error flag set. */
    ghost predicate StopsAtFlag(status: int, flaggedBefore: Option<nat>)
      reads this
    {
      flaggedBefore.None? && flaggedAt.Some? ==> status != 0 && flaggedAt == Some(sent)
    }

    /** One round of altera_cvp_write: wait for credit, send a block, and check for errors after every 4 KiB. */
    method Round(image: seq<Byte>, done: nat, ghost before: seq<nat>)
      returns (status: int, len: nat, ghost did: bool)
      requires Valid() && done < |image| && done % 4 == 0 && (v2 ==> done % V2_SIZE == 0)
      requires written == before + Words(image[..done]) && (chkcfg ==> CheckedUpTo(|before|, done, checks))
      modifies this
      ensures Valid() && polls >= old(polls)
      ensures sent == old(sent) + if did then 1 else 0
      ensures did ==> len == if BlockSize() < |image| - done then BlockSize() else |image| - done
      ensures written == if did then before + Words(image[..done + len]) else old(written)
      ensures status == 0 ==> did && (chkcfg ==> CheckedUpTo(|before|, done + len, checks))
      ensures status == 0 ==> flaggedAt == old(flaggedAt)
      ensures FailsForCause(status, old(polls)) && StopsAtFlag(status, old(flaggedAt))
      ensures old(flaggedAt).Some? ==> flaggedAt == old(flaggedAt)
    {
      hide Words; hide CheckedUpTo;
      status, len, did := 0, 0, false;
      if v2 {
        ghost var readFailed;
        status, readFailed := WaitForCredit();
        if status != 0 {
          return;
        }
      }
      ghost var checkedBefore := checks;
      if chkcfg { MoreChecks(|before|, done, old(checks), checks); }
      len := SendNext(image, done, before);
      did := true;
      if chkcfg && (done + len) % V2_SIZE == 0 {
        status := ChkError();
      }
      if status == 0 && chkcfg { NextCheck(|before|, done, len, checkedBefore, checks); }
    }

    /** altera_cvp_write. Behind what earlier calls wrote, what has been written is at every moment the
        packing of a whole number of blocks of the image, sent under credit; all of it is written when 0 is
        returned. */
    method Write(image: seq<Byte>) returns (status: int)
      requires Valid()
      modifies this
      ensures Valid()
      ensures sent >= old(sent) && written == old(written) + Words(image[..Reach(sent - old(sent), |image|)])
      ensures sent > old(sent) ==> Reach(sent - old(sent) - 1, |image|) < |image|
      ensures status == 0 && chkcfg ==> clearAt == |written|
      ensures chkcfg && status == 0 ==> CheckedUpTo(|old(written)|, |image|, checks)
      ensures FailsForCause(status, old(polls)) && StopsAtFlag(status, old(flaggedAt)) && polls >= old(polls)
      ensures old(flaggedAt).Some? ==> flaggedAt == old(flaggedAt)
      ensures status == 0 ==> written == old(written) + Words(image)
      ensures status == 0 ==> UnpackAll(written[|old(written)|..])[..|image|] == image
    {
      hide Words; hide UnpackAll; hide Reach;
      NoWords();
      status := 0;
      var done := 0;
      ReachZero(|image|);
      while done < |image|
        invariant Valid() && status == 0 && sent >= old(sent)
        invariant 0 <= done <= |image| && done == Reach(sent - old(sent), |image|)
        invariant written == old(written) + Words(image[..done])
        invariant sent > old(sent) ==> Reach(sent - old(sent) - 1, |image|) < |image|
        invariant flaggedAt == old(flaggedAt) && polls >= old(polls)
        invariant chkcfg ==> CheckedUpTo(|old(written)|, done, checks)
        decreases |image| - done
      {
        ReachStep(sent - old(sent), |image|);
        var len;
        ghost var did;
        status, len, did := Round(image, done, old(written));
        if status != 0 {
          return;
        }
        done := done + len;
      }
      assert image[..done] == image;
      PackedExactly(image);
      assert written[|old(written)|..] == Words(image);
      if chkcfg {
        status := ChkError();
      }
    }

    /** The fragments of an image, each given to altera_cvp_write in turn until one fails. The credit count
        runs on from one to the next. */
    method WriteFragments(fragments: seq<seq<Byte>>) returns (status: int)
      requires Valid()
      modifies this
      ensures Valid() && sent >= old(sent)
      ensures FailsForCause(status, old(polls)) && StopsAtFlag(status, old(flaggedAt))
      ensures status == 0 ==> written == old(written) + PackedApart(fragments)
      ensures status == 0 && WholeButLast(fragments) ==> written == old(written) + Words(Flatten(fragments))
    {
      hide Words; hide Reach; hide PackedApart; hide WholeButLast; hide Flatten;
      PackedApartEmpty();
      status := 0;
      for i := 0 to |fragments|
        invariant Valid() && sent >= old(sent) && status == 0 && written == old(written) + PackedApart(fragments[..i])
        invariant polls >= old(polls) && StopsAtFlag(0, old(flaggedAt))
      {
        status := Write(fragments[i]);
        if status != 0 {
          return;
        }
        PackedApartPush(fragments[..i], fragments[i]);
        assert fragments[..i + 1] == fragments[..i] + [fragments[i]];
      }
      assert fragments[..|fragments|] == fragments;
      if WholeButLast(fragments) { WholePackTogether(fragments); }
    }
  }

  /** The error flag has been found clear after every 4 KiB, that is 1024 words, of the first `done` bytes. */
  predicate CheckedUpTo(before: nat, done: nat, checks: set<nat>) {
    forall m :: 0 < m <= done / 4096 ==> before + 1024 * m in checks
  }

  lemma NextCheck(before: nat, done: nat, len: nat, old': set<nat>, checks: set<nat>)
    requires CheckedUpTo(before, done, old') && old' <= checks
    requires (done % 4 == 0 && len <= 4) || (done % 4096 == 0 && len <= 4096)
    requires (done + len) % 4096 == 0 ==> before + (done + len + 3) / 4 in checks
    ensures CheckedUpTo(before, done + len, checks)
  {
    var m := (done + len) / 4096;
    if m > done / 4096 {
      OneMore(done, len);
      assert (done + len + 3) / 4 == 1024 * m;
    }
  }

  lemma MoreChecks(before: nat, done: nat, some: set<nat>, all: set<nat>)
    requires CheckedUpTo(before, done, some) && some <= all
    ensures CheckedUpTo(before, done, all)
  {
  }

  lemma WholeBlocks(blocks: nat)
    ensures V2_SIZE * blocks % V2_SIZE == 0 && V2_SIZE * blocks % 4 == 0 && V1_SIZE * blocks % 4 == 0
  {
    Multiples(blocks, V2_SIZE);
    Multiples(blocks, 4);
    Multiples(1024 * blocks, 4);
  }

  lemma Multiples(k: nat, d: nat)
    requires d > 0
    ensures d * k % d == 0
  {
    DivUnique(d * k, d, k);
    assert d * k == k * d;
  }

  lemma OneMore(done: nat, len: nat)
    requires (done % 4 == 0 && len <= 4) || (done % 4096 == 0 && len <= 4096)
    requires (done + len) / 4096 > done / 4096
    ensures (done + len) % 4096 == 0 && (done + len) / 4096 == done / 4096 + 1
  {
  }

  // ---------------------------------------------------------------- fragments of an image

  /** The words of fragments packed one by one. */
  function PackedApart(fragments: seq<seq<Byte>>): seq<nat> {
    if fragments == [] then [] else Words(fragments[0]) + PackedApart(fragments[1..])
  }

  lemma PackedApartEmpty()
    ensures PackedApart([]) == []
  {
  }

  lemma {:induction false} PackedApartPush(fragments: seq<seq<Byte>>, last: seq<Byte>)
    ensures PackedApart(fragments + [last]) == PackedApart(fragments) + Words(last)
  {
    hide Words;
    if fragments == [] {
      assert [last][1..] == [];
    } else {
      assert (fragments + [last])[1..] == fragments[1..] + [last];
      PackedApartPush(fragments[1..], last);
    }
  }

  /** After a fragment that is not a whole number of words nothing more comes. */
  predicate WholeButLast(fragments: seq<seq<Byte>>) {
    forall i, j :: 0 <= i < j < |fragments| ==> |fragments[i]| % 4 == 0 || fragments[j] == []
  }

  lemma WholeTail(fragments: seq<seq<Byte>>)
    requires fragments != []
    ensures WholeButLast(fragments) <==>
            WholeButLast(fragments[1..]) && (|fragments[0]| % 4 == 0 || Flatten(fragments[1..]) == [])
  {
    var rest := fragments[1..];
    assert forall j :: 0 <= j < |rest| ==> rest[j] == fragments[j + 1];
    NothingMore(rest);
    if WholeButLast(rest) && (|fragments[0]| % 4 == 0 || Flatten(rest) == []) {
      forall i, j | 0 <= i < j < |fragments|
        ensures |fragments[i]| % 4 == 0 || fragments[j] == []
      {
        if i > 0 { assert |rest[i - 1]| % 4 == 0 || rest[j - 1] == []; }
      }
    }
  }

  lemma {:induction false} NothingMore(fragments: seq<seq<Byte>>)
    ensures Flatten(fragments) == [] <==> forall j :: 0 <= j < |fragments| ==> fragments[j] == []
    ensures Flatten(fragments) == [] ==> PackedApart(fragments) == []
  {
    if fragments != [] {
      NothingMore(fragments[1..]);
      assert forall j :: 1 <= j < |fragments| ==> fragments[j] == fragments[1..][j - 1];
      assert Flatten(fragments) == [] ==> fragments[0] == [];
    }
  }

  lemma {:induction false} WholePackTogether(fragments: seq<seq<Byte>>)
    requires WholeButLast(fragments)
    ensures PackedApart(fragments) == Words(Flatten(fragments))
  {
    hide Words; hide WholeButLast;
    NoWords();
    if fragments != [] {
      var f, rest := fragments[0], fragments[1..];
      WholeTail(fragments);
      WholePackTogether(rest);
      if |f| % 4 == 0 {
        WordsSplit(f, Flatten(rest));
      } else {
        NothingMore(rest);
        assert f + [] == f;
      }
    }
  }

  predicate NoZeros(fragments: seq<seq<Byte>>) {
    forall i, j :: 0 <= i < |fragments| && 0 <= j < |fragments[i]| ==> fragments[i][j] != 0
  }

  /** Between fragments without zero bytes the padding shows. */
  lemma {:induction false} PaddingShows(fragments: seq<seq<Byte>>)
    requires NoZeros(fragments) && PackedApart(fragments) == Words(Flatten(fragments))
    ensures WholeButLast(fragments)
  {
    hide Words; hide WholeButLast;
    if fragments == [] {
      EmptyIsWhole();
    } else {
      var f, rest := fragments[0], fragments[1..];
      WholeTail(fragments);
      if |f| % 4 == 0 {
        WordsSplit(f, Flatten(rest));
        SameTail(Words(f), PackedApart(rest), Words(Flatten(rest)));
        PaddingShows(rest);
      } else if Flatten(rest) == [] {
        NothingMore(rest);
        NoWords();
        PaddingShows(rest);
      } else {
        FirstByteMore(rest);
        PaddedThere(f, PackedApart(rest), Flatten(rest));
        assert false;
      }
    }
  }

  lemma EmptyIsWhole()
    ensures WholeButLast([])
  {
  }

  lemma SameTail(a: seq<nat>, x: seq<nat>, y: seq<nat>)
    requires a + x == a + y
    ensures x == y
  {
    assert x == (a + x)[|a|..] && y == (a + y)[|a|..];
  }

  lemma {:induction false} FirstByteMore(fragments: seq<seq<Byte>>)
    requires NoZeros(fragments) && Flatten(fragments) != []
    ensures Flatten(fragments)[0] != 0
  {
    if fragments[0] == [] { FirstByteMore(fragments[1..]); }
  }

  /** Where one packing has padding after a fragment, the other has the next byte. */
  lemma PaddedThere(f: seq<Byte>, more: seq<nat>, rest: seq<Byte>)
    requires |f| % 4 != 0 && rest != [] && rest[0] != 0
    ensures Words(f) + more != Words(f + rest)
  {
    hide Words; hide UnpackAll;
    PackedExactly(f);
    PackedExactly(f + rest);
    UnpackSplit(Words(f), more);
    var k := |f|;
    assert UnpackAll(Words(f))[k] == 0;
    assert UnpackAll(Words(f) + more)[k] == 0;
    assert UnpackAll(Words(f + rest))[..|f + rest|][k] == rest[0];
  }

  /** Fragments of given sizes arrive as the packing of the whole image, whatever their bytes, exactly when
      all but the last that is not empty are whole numbers of words. */
  lemma FragmentsExact(sizes: seq<nat>)
    ensures (forall fragments :: Sized(fragments, sizes) ==> PackedApart(fragments) == Words(Flatten(fragments))) <==>
            forall i, j :: 0 <= i < j < |sizes| ==> sizes[i] % 4 == 0 || sizes[j] == 0
  {
    hide Words; hide PackedApart;
    var ones: seq<seq<Byte>> := seq(|sizes|, i requires 0 <= i < |sizes| => seq(sizes[i], j => 1 as Byte));
    assert Sized(ones, sizes) && NoZeros(ones);
    if PackedApart(ones) == Words(Flatten(ones)) {
      PaddingShows(ones);
      forall fragments | Sized(fragments, sizes)
        ensures PackedApart(fragments) == Words(Flatten(fragments))
      {
        assert WholeButLast(fragments);
        WholePackTogether(fragments);
      }
    } else {
      if WholeButLast(ones) { WholePackTogether(ones); }
    }
  }

  predicate Sized(fragments: seq<seq<Byte>>, sizes: seq<nat>) {
    |fragments| == |sizes| && forall i :: 0 <= i < |sizes| ==> |fragments[i]| == sizes[i]
  }

  method AnyByte() returns (b: Byte) {
    b :| 0 <= b < 256;
  }
}
