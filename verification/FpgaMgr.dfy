/** Image loading in drivers/fpga/fpga-mgr.c: the contiguous path hands the low-level driver one
    buffer, the scatter-gather path hands it fragment by fragment. */
module FpgaMgr {
  import opened Common

  const EAGAIN: int := 11
  const EFAULT: int := 14
  const EINVAL: int := 22

  datatype State =
    | UNKNOWN
    | PARSE_HEADER | PARSE_HEADER_ERR
    | WRITE_INIT | WRITE_INIT_ERR
    | WRITE | WRITE_ERR
    | WRITE_COMPLETE | WRITE_COMPLETE_ERR
    | OPERATING

  /** The header and data sizes in fpga_image_info. */
  datatype Info = Info(headerSize: nat, dataSize: nat)

  datatype Parsed = Parsed(ret: int, info: Info)

  /** The low-level driver: its parse_header op (if any), its write_init op, its write op (which may
      depend on what it has been given before) and its write_complete op. */
  datatype Driver = Driver(
    initialHeaderSize: nat,
    skipHeader: bool,
    parse: Option<seq<Byte> -> Parsed>,
    init: seq<Byte> -> int,
    write: (seq<Byte>, seq<Byte>) -> int,
    complete: int)

  datatype Outcome = Outcome(ret: int, state: State, info: Info, written: seq<Byte>)

  // ---------------------------------------------------------------- what each step computes

  function ParseHeader(d: Driver, info: Info, buf: seq<Byte>): Parsed {
    if d.parse.Some? then d.parse.value(buf) else Parsed(0, info)
  }

  function WriteInit(d: Driver, info: Info, buf: seq<Byte>): int {
    if info.headerSize > |buf| then -EINVAL
    else if info.headerSize == 0 then d.init([])
    else d.init(buf)
  }

  /** Growing the header copy until the parser stops asking for more. */
  function Gather(d: Driver, info: Info, image: seq<Byte>, have: nat): (r: (Parsed, nat))
    requires have <= |image|
    ensures have <= r.1 <= |image|
    decreases |image| - have
  {
    if info.headerSize <= have || info.headerSize > |image| then (Parsed(-EFAULT, info), have)
    else
      var p := ParseHeader(d, info, image[..info.headerSize]);
      if p.ret == -EAGAIN then Gather(d, p.info, image, info.headerSize) else (p, info.headerSize)
  }

  /** Parsing a scattered header: its first fragment if that holds enough, else a copy. */
  function ParseSg(d: Driver, info: Info, frags: seq<seq<Byte>>): (r: (Parsed, seq<Byte>)) {
    var first := if frags != [] && |frags[0]| >= info.headerSize then ParseHeader(d, info, frags[0])
                 else Parsed(-EAGAIN, info);
    if first.ret != -EAGAIN then (first, if frags != [] then frags[0] else [])
    else
      var g := Gather(d, first.info, Flatten(frags), 0);
      (g.0, Flatten(frags)[..g.1])
  }

  /** The fragments left after skipping `off` bytes, or nothing if there are not that many. */
  function Skip(frags: seq<seq<Byte>>, off: nat): Option<seq<seq<Byte>>> {
    if off == 0 then Some(frags)
    else if frags == [] then None
    else if off >= |frags[0]| then Skip(frags[1..], off - |frags[0]|)
    else Some([frags[0][off..]] + frags[1..])
  }

  function ChunkLength(chunk: seq<Byte>, dataSize: nat, count: nat): (n: nat)
    requires dataSize > 0 ==> count < dataSize
    ensures n <= |chunk|
  {
    if dataSize > 0 && dataSize - count < |chunk| then dataSize - count else |chunk|
  }

  /** Handing the write op one chunk after the other until the data size is reached. */
  function WriteChunks(d: Driver, chunks: seq<seq<Byte>>, dataSize: nat, count: nat, written: seq<Byte>)
    : (r: (int, seq<Byte>))
    requires dataSize > 0 ==> count < dataSize
    decreases |chunks|
  {
    if chunks == [] then (0, written)
    else
      var c := chunks[0][..ChunkLength(chunks[0], dataSize, count)];
      var ret := d.write(written, c);
      if ret != 0 then (ret, written + c)
      else if dataSize > 0 && count + |c| >= dataSize then (0, written + c)
      else WriteChunks(d, chunks[1..], dataSize, count + |c|, written + c)
  }

  function Complete(d: Driver, info: Info, written: seq<Byte>): Outcome {
    if d.complete != 0 then Outcome(d.complete, WRITE_COMPLETE_ERR, info, written)
    else Outcome(0, OPERATING, info, written)
  }

  /** The contiguous path. */
  function LoadMapped(d: Driver, info: Info, image: seq<Byte>): Outcome {
    var p := ParseHeader(d, info, image);
    if p.info.headerSize + p.info.dataSize > |image| then Outcome(-EINVAL, PARSE_HEADER_ERR, p.info, [])
    else if p.ret != 0 then Outcome(p.ret, PARSE_HEADER_ERR, p.info, [])
    else
      var ret := WriteInit(d, p.info, image);
      if ret != 0 then Outcome(ret, WRITE_INIT_ERR, p.info, [])
      else
        var data := if d.skipHeader then image[p.info.headerSize..] else image;
        var out := if p.info.dataSize > 0 then data[..p.info.dataSize] else data;
        var done := d.write([], out);
        if done != 0 then Outcome(done, WRITE_ERR, p.info, out) else Complete(d, p.info, out)
  }

  /** The scatter-gather path. */
  function LoadSg(d: Driver, info: Info, frags: seq<seq<Byte>>): Outcome {
    var short := d.initialHeaderSize == 0 && d.parse.None?;
    var p := if short then (Parsed(0, info), []) else ParseSg(d, info, frags);
    if p.0.ret != 0 then Outcome(p.0.ret, PARSE_HEADER_ERR, p.0.info, [])
    else
      var ret := WriteInit(d, p.0.info, p.1);
      if ret != 0 then Outcome(ret, WRITE_INIT_ERR, p.0.info, [])
      else
        var rest := if d.skipHeader then Skip(frags, p.0.info.headerSize) else Some(frags);
        if rest.None? then Outcome(-EINVAL, WRITE_ERR, p.0.info, [])
        else
          var w := WriteChunks(d, rest.value, p.0.info.dataSize, 0, []);
          if w.0 != 0 then Outcome(w.0, WRITE_ERR, p.0.info, w.1) else Complete(d, p.0.info, w.1)
  }

  // ---------------------------------------------------------------- the manager

  class Manager {
    const d: Driver
    var state: State
    var info: Info
    /** Everything the write op has been handed, in order. */
    var written: seq<Byte>
    /** What write_init was handed, call by call, and what the write op answered, call by call. */
    ghost var inits: seq<seq<Byte>>
    ghost var answers: seq<int>

    constructor (d: Driver, dataSize: nat)
      ensures this.d == d && state == UNKNOWN && info == Info(d.initialHeaderSize, dataSize) && Fresh()
    {
      this.d, state, info, written := d, UNKNOWN, Info(d.initialHeaderSize, dataSize), [];
      inits, answers := [], [];
    }

    /** Nothing has reached the low-level driver yet. */
    ghost predicate Fresh()
      reads this
    {
      written == [] && inits == [] && answers == []
    }

    /** write_init was called at most once: with no bytes for a driver that wants no header, and otherwise with
        a part of the image, from its start on, that holds at least the header. Nothing was written unless it
        answered 0, and its error is the error of the load. */
    ghost predicate Initialised(image: seq<Byte>, ret: int)
      reads this
    {
      if inits == [] then ret != 0 && written == [] && answers == []
      else
        |inits| == 1 && HeaderGiven(info, image, inits[0]) &&
        (state == WRITE_INIT_ERR <==> d.init(inits[0]) != 0) &&
        (d.init(inits[0]) != 0 ==> ret == d.init(inits[0]) && written == [] && answers == [])
    }

    /** Every write was answered with 0, except the last one of a load that failed on it. */
    ghost predicate FirstErrorWins(ret: int)
      reads this
    {
      (forall i :: 0 <= i < |answers| - 1 ==> answers[i] == 0) &&
      (answers != [] && answers[|answers| - 1] != 0 ==> ret == answers[|answers| - 1] && state == WRITE_ERR)
    }

    /** A load that is over: in operation, or in the error state of the step that failed. */
    ghost predicate Over(ret: int)
      reads this`state
    {
      (ret == 0 && state == OPERATING) ||
      (ret != 0 && state in {PARSE_HEADER_ERR, WRITE_INIT_ERR, WRITE_ERR, WRITE_COMPLETE_ERR})
    }

    function Result(ret: int): Outcome
      reads this
    {
      Outcome(ret, state, info, written)
    }

    method CallParse(buf: seq<Byte>) returns (ret: int)
      modifies this`info
      ensures Parsed(ret, info) == ParseHeader(d, old(info), buf)
    {
      ret := 0;
      if d.parse.Some? {
        var p := d.parse.value(buf);
        ret, info := p.ret, p.info;
      }
    }

    method ParseHeaderMapped(buf: seq<Byte>) returns (ret: int)
      modifies this`info, this`state
      ensures var p := ParseHeader(d, old(info), buf);
        info == p.info && ret == (if info.headerSize + info.dataSize > |buf| then -EINVAL else p.ret)
      ensures state == if ret != 0 then PARSE_HEADER_ERR else PARSE_HEADER
    {
      state := PARSE_HEADER;
      ret := CallParse(buf);
      if info.headerSize + info.dataSize > |buf| {
        ret := -EINVAL;
      }
      if ret != 0 {
        state := PARSE_HEADER_ERR;
      }
    }

    method ParseHeaderSgFirst(frags: seq<seq<Byte>>) returns (ret: int)
      modifies this`info, this`state
      ensures Parsed(ret, info) == if frags != [] && |frags[0]| >= old(info).headerSize
        then ParseHeader(d, old(info), frags[0]) else Parsed(-EAGAIN, old(info))
      ensures state == if ret != 0 && ret != -EAGAIN then PARSE_HEADER_ERR else PARSE_HEADER
    {
      state := PARSE_HEADER;
      if frags != [] && |frags[0]| >= info.headerSize {
        ret := CallParse(frags[0]);
      } else {
        ret := -EAGAIN;
      }
      if ret != 0 && ret != -EAGAIN {
        state := PARSE_HEADER_ERR;
      }
    }

    /** Copies ever more of the image into a header buffer until the parser is content. Every round
        copies at least one more byte, so the loop ends. */
    method ParseHeaderSg(frags: seq<seq<Byte>>) returns (ret: int, buf: seq<Byte>)
      requires state == PARSE_HEADER
      modifies this`info, this`state
      ensures var g := Gather(d, old(info), Flatten(frags), 0);
        Parsed(ret, info) == g.0 && buf == Flatten(frags)[..g.1]
      ensures ret != -EAGAIN && state == if ret != 0 then PARSE_HEADER_ERR else PARSE_HEADER
    {
      ghost var image := Flatten(frags);
      buf, ret := [], -EAGAIN;
      while ret == -EAGAIN
        invariant state == PARSE_HEADER && |buf| <= |image| && buf == image[..|buf|]
        invariant var g := Gather(d, old(info), image, 0);
          if ret == -EAGAIN then g == Gather(d, info, image, |buf|) else g == (Parsed(ret, info), |buf|)
        decreases |image| - |buf|, ret == -EAGAIN
      {
        var newHeaderSize := info.headerSize;
        if newHeaderSize <= |buf| {
          ret := -EFAULT;
          break;
        }
        var more := CopyFrom(frags, |buf|, newHeaderSize - |buf|);
        if |more| != newHeaderSize - |buf| {
          ret := -EFAULT;
          break;
        }
        buf := buf + more;
        assert buf == image[..newHeaderSize];
        ret := CallParse(buf);
      }
      if ret != 0 {
        state := PARSE_HEADER_ERR;
      }
    }

    method CallInit(buf: seq<Byte>) returns (ret: int)
      modifies this`inits
      ensures ret == d.init(buf) && inits == old(inits) + [buf]
    {
      ret := d.init(buf);
      inits := inits + [buf];
    }

    method WriteInitBuf(buf: seq<Byte>) returns (ret: int)
      modifies this`state, this`inits
      ensures ret == WriteInit(d, info, buf) && state == if ret != 0 then WRITE_INIT_ERR else WRITE_INIT
      ensures inits == old(inits) + if info.headerSize > |buf| then [] else [if info.headerSize == 0 then [] else buf]
      ensures if info.headerSize > |buf| then ret == -EINVAL else ret == d.init(inits[|inits| - 1])
    {
      state := WRITE_INIT;
      if info.headerSize > |buf| {
        ret := -EINVAL;
      } else if info.headerSize == 0 {
        ret := CallInit([]);
      } else {
        ret := CallInit(buf);
      }
      if ret != 0 {
        state := WRITE_INIT_ERR;
      }
    }

    method PrepareSg(frags: seq<seq<Byte>>) returns (ret: int)
      requires Fresh()
      modifies this`info, this`state, this`inits
      ensures var short := d.initialHeaderSize == 0 && d.parse.None?;
        var p := if short then (Parsed(0, old(info)), []) else ParseSg(d, old(info), frags);
        info == p.0.info && (inits == [] <==> p.0.ret != 0 || info.headerSize > |p.1|) &&
        if p.0.ret != 0 then ret == p.0.ret && state == PARSE_HEADER_ERR
        else ret == WriteInit(d, info, p.1) && state == if ret != 0 then WRITE_INIT_ERR else WRITE_INIT
      ensures Initialised(Flatten(frags), ret)
      ensures inits == [] ==> ret != 0
    {
      if d.initialHeaderSize == 0 && d.parse.None? {
        ret := WriteInitBuf([]);
        return;
      }
      ret := ParseHeaderSgFirst(frags);
      if ret == 0 {
        assert Flatten(frags) == frags[0] + Flatten(frags[1..]);
        ret := WriteInitBuf(frags[0]);
        return;
      } else if ret != -EAGAIN {
        return;
      }
      var buf;
      ret, buf := ParseHeaderSg(frags);
      if ret != 0 {
        return;
      }
      ret := WriteInitBuf(buf);
    }

    method Write(chunk: seq<Byte>) returns (ret: int)
      modifies this`written, this`answers
      ensures ret == d.write(old(written), chunk) && written == old(written) + chunk && answers == old(answers) + [ret]
    {
      ret := d.write(written, chunk);
      written := written + chunk;
      answers := answers + [ret];
    }

    method WriteComplete() returns (ret: int)
      modifies this`state
      ensures Result(ret) == Complete(d, info, written)
    {
      state := WRITE_COMPLETE;
      ret := d.complete;
      if ret != 0 {
        state := WRITE_COMPLETE_ERR;
        return;
      }
      state := OPERATING;
    }

    /** The scatter-gather load, fragment by fragment. */
    method BufLoadSg(frags: seq<seq<Byte>>) returns (ret: int)
      requires Fresh()
      modifies this
      ensures Result(ret) == LoadSg(d, old(info), frags) && Over(ret)
      ensures Initialised(Flatten(frags), ret) && FirstErrorWins(ret)
      ensures Consistent(d, Flatten(frags)) && old(info).headerSize == d.initialHeaderSize ==>
        (inits != [] <==> ParseHeader(d, old(info), Flatten(frags)).ret == 0 && Readable(d, frags))
    {
      HeaderReachesInit(d, info, frags);
      ret := PrepareSg(frags);
      if ret != 0 {
        return;
      }
      state := WRITE;
      var rest := Some(frags);
      if d.skipHeader {
        rest := Skip(frags, info.headerSize);
      }
      if rest.None? {
        state := WRITE_ERR;
        return -EINVAL;
      }
      ret := WriteAll(rest.value);
      if ret != 0 {
        state := WRITE_ERR;
        return;
      }
      ret := WriteComplete();
    }

    /** The fragment loop. */
    method WriteAll(chunks: seq<seq<Byte>>) returns (ret: int)
      requires answers == []
      modifies this`written, this`answers
      ensures (ret, written) == WriteChunks(d, chunks, info.dataSize, 0, old(written))
      ensures forall i :: 0 <= i < |answers| - 1 ==> answers[i] == 0
      ensures ret == if answers == [] then 0 else answers[|answers| - 1]
    {
      var k, count := 0, 0;
      ret := 0;
      while k < |chunks|
        invariant 0 <= k <= |chunks| && ret == 0 && (info.dataSize > 0 ==> count < info.dataSize)
        invariant forall i :: 0 <= i < |answers| ==> answers[i] == 0
        invariant WriteChunks(d, chunks, info.dataSize, 0, old(written))
          == WriteChunks(d, chunks[k..], info.dataSize, count, written)
      {
        var length := |chunks[k]|;
        if info.dataSize > 0 && info.dataSize - count < length {
          length := info.dataSize - count;
        }
        assert chunks[k..][0] == chunks[k] && chunks[k..][1..] == chunks[k + 1..];
        ret := Write(chunks[k][..length]);
        if ret != 0 {
          break;
        }
        count := count + length;
        if info.dataSize > 0 && count >= info.dataSize {
          break;
        }
        k := k + 1;
      }
    }

    /** The contiguous load. */
    method BufLoadMapped(buf: seq<Byte>) returns (ret: int)
      requires Fresh()
      modifies this
      ensures Result(ret) == LoadMapped(d, old(info), buf) && Over(ret)
      ensures Initialised(buf, ret) && FirstErrorWins(ret)
      ensures inits == [] <==> state == PARSE_HEADER_ERR
      ensures inits != [] && info.headerSize > 0 ==> inits[0] == buf
    {
      ret := ParseHeaderMapped(buf);
      if ret != 0 {
        return;
      }
      ret := WriteInitBuf(buf);
      if ret != 0 {
        return;
      }
      var data, count := buf, |buf|;
      if d.skipHeader {
        data, count := data[info.headerSize..], count - info.headerSize;
      }
      if info.dataSize > 0 {
        count := info.dataSize;
      }
      state := WRITE;
      assert data[..|data|] == data;
      ret := Write(data[..count]);
      assert [] + data[..count] == data[..count];
      if ret != 0 {
        state := WRITE_ERR;
        return;
      }
      ret := WriteComplete();
    }
  }

  /** What write_init may be handed of an image. */
  predicate HeaderGiven(info: Info, image: seq<Byte>, buf: seq<Byte>) {
    if info.headerSize == 0 then buf == [] else info.headerSize <= |buf| && buf <= image
  }

  /** sg_pcopy_to_buffer: up to len bytes of the scatter list from byte `skip` on. */
  function CopyFrom(frags: seq<seq<Byte>>, skip: nat, len: nat): seq<Byte> {
    var image := Flatten(frags);
    if skip >= |image| then [] else if skip + len > |image| then image[skip..] else image[skip..skip + len]
  }

  // ---------------------------------------------------------------- the two paths agree

  lemma {:induction false} SkipFlattens(frags: seq<seq<Byte>>, off: nat)
    ensures Skip(frags, off).Some? <==> off <= |Flatten(frags)|
    ensures off <= |Flatten(frags)| ==> Flatten(Skip(frags, off).value) == Flatten(frags)[off..]
  {
    if off == 0 {
      assert Flatten(frags)[0..] == Flatten(frags);
    } else if frags != [] {
      var f, rest := frags[0], frags[1..];
      if off >= |f| {
        SkipFlattens(rest, off - |f|);
        if off <= |Flatten(frags)| {
          assert Flatten(frags)[off..] == Flatten(rest)[off - |f|..];
        }
      } else {
        assert ([f[off..]] + rest)[1..] == rest;
        assert Flatten(frags)[off..] == f[off..] + Flatten(rest);
      }
    }
  }

  /** What is still to be written of s when `count` bytes of the data size have been. */
  function Taken(s: seq<Byte>, dataSize: nat, count: nat): seq<Byte>
    requires dataSize > 0 ==> count < dataSize
  {
    if dataSize > 0 && dataSize - count < |s| then s[..dataSize - count] else s
  }

  /** The chunks handed over are always a prefix of the data, and all of it if every write succeeds. */
  lemma {:induction false} ChunksAreTaken(d: Driver, chunks: seq<seq<Byte>>, dataSize: nat, count: nat,
                                          written: seq<Byte>)
    requires dataSize > 0 ==> count < dataSize
    ensures var w := WriteChunks(d, chunks, dataSize, count, written);
      var all := written + Taken(Flatten(chunks), dataSize, count);
      w.1 <= all && (w.0 == 0 ==> w.1 == all)
    ensures (forall s, c :: d.write(s, c) == 0) ==> WriteChunks(d, chunks, dataSize, count, written).0 == 0
    decreases |chunks|
  {
    if chunks != [] {
      var c := chunks[0][..ChunkLength(chunks[0], dataSize, count)];
      var rest := Flatten(chunks[1..]);
      assert Flatten(chunks) == chunks[0] + rest;
      if dataSize > 0 && count + |c| >= dataSize {
        assert Taken(Flatten(chunks), dataSize, count) == c;
      } else {
        assert c == chunks[0];
        ChunksAreTaken(d, chunks[1..], dataSize, count + |c|, written + c);
        assert Taken(Flatten(chunks), dataSize, count) == c + Taken(rest, dataSize, count + |c|);
        assert written + (c + Taken(rest, dataSize, count + |c|)) == written + c + Taken(rest, dataSize, count + |c|);
        assert written + c <= written + Taken(Flatten(chunks), dataSize, count);
      }
    }
  }

  /** A parser that is consistent on prefixes: given part of the image it either answers as on the whole,
      with a header that fits the part, or asks for more (never for more than there is when the whole can
      be parsed); and write_init needs no more than the header. */
  ghost predicate Consistent(d: Driver, image: seq<Byte>) {
    (d.parse.Some? ==>
      var parse := d.parse.value;
      var whole := parse(image);
      (whole.ret == 0 ==> whole.info.headerSize <= |image|) &&
      forall n :: 0 <= n <= |image| ==> ConsistentOn(parse(image[..n]), whole, n, |image|)) &&
    forall n :: 0 < n <= |image| && ParseHeader(d, Info(d.initialHeaderSize, 0), image).info.headerSize <= n ==>
      d.init(image[..n]) == d.init(image)
  }

  predicate ConsistentOn(part: Parsed, whole: Parsed, n: nat, total: nat) {
    (part == whole && (whole.ret == 0 ==> whole.info.headerSize <= n)) ||
    (part.ret == -EAGAIN && n < part.info.headerSize && (whole.ret != -EAGAIN ==> part.info.headerSize <= total))
  }

  /** Whether the scatter path gets to see a header at all. */
  predicate Readable(d: Driver, frags: seq<seq<Byte>>) {
    (d.initialHeaderSize == 0 && d.parse.None?) || (frags != [] && d.initialHeaderSize <= |Flatten(frags)|)
  }

  /** Gathering settles on the answer for the whole image. */
  lemma {:induction false} GatherSettles(d: Driver, info: Info, image: seq<Byte>, have: nat)
    requires Consistent(d, image) && d.parse.Some? && have < info.headerSize && have <= |image|
    ensures var g := Gather(d, info, image, have); var whole := d.parse.value(image);
      if info.headerSize > |image| || whole.ret == -EAGAIN then g.0.ret != 0
      else g.0 == whole && (whole.ret == 0 ==> whole.info.headerSize <= g.1)
    decreases |image| - have
  {
    if info.headerSize <= |image| {
      var n := info.headerSize;
      var part := d.parse.value(image[..n]);
      assert ConsistentOn(part, d.parse.value(image), n, |image|);
      if part.ret == -EAGAIN && n < |image| && n < part.info.headerSize {
        GatherSettles(d, part.info, image, n);
      }
    }
  }

  /** The scatter header phase sees the answer for the whole image, together with at least the header;
      or it fails because the image holds no readable header. */
  lemma HeaderAgrees(d: Driver, info: Info, frags: seq<seq<Byte>>) returns (m: nat)
    requires Consistent(d, Flatten(frags)) && info.headerSize == d.initialHeaderSize
    requires !(d.initialHeaderSize == 0 && d.parse.None?)
    ensures var p, image := ParseSg(d, info, frags), Flatten(frags);
      var whole := ParseHeader(d, info, image);
      m <= |image| &&
      if !Readable(d, frags) || whole.ret == -EAGAIN then p.0.ret != 0
      else p.0 == whole && (whole.ret == 0 ==> p.1 == image[..m] && whole.info.headerSize <= m)
  {
    var image := Flatten(frags);
    m := |ParseSg(d, info, frags).1|;
    if frags != [] {
      var n := |frags[0]|;
      assert image == frags[0] + Flatten(frags[1..]);
      assert frags[0] == image[..n];
      if d.parse.Some? {
        var whole := d.parse.value(image);
        var part := d.parse.value(image[..n]);
        assert ConsistentOn(part, whole, n, |image|);
        if n >= info.headerSize {
          if part.ret == -EAGAIN && part.info.headerSize > 0 { GatherSettles(d, part.info, image, 0); }
        } else {
          GatherSettles(d, info, image, 0);
        }
      }
    } else {
      m := 0;
    }
  }

  /** For a consistent parser the scatter path has the header in hand whenever the image can be parsed. */
  lemma HeaderReachesInit(d: Driver, info: Info, frags: seq<seq<Byte>>)
    ensures Consistent(d, Flatten(frags)) && info.headerSize == d.initialHeaderSize ==>
      var short := d.initialHeaderSize == 0 && d.parse.None?;
      var p := if short then (Parsed(0, info), []) else ParseSg(d, info, frags);
      (p.0.ret == 0 && p.0.info.headerSize <= |p.1| <==>
        ParseHeader(d, info, Flatten(frags)).ret == 0 && Readable(d, frags))
  {
    if Consistent(d, Flatten(frags)) && info.headerSize == d.initialHeaderSize {
      if !(d.initialHeaderSize == 0 && d.parse.None?) {
        var m := HeaderAgrees(d, info, frags);
      }
    }
  }

  /** The data either path is meant to deliver. */
  function Payload(d: Driver, info: Info, image: seq<Byte>): seq<Byte> {
    var data := if d.skipHeader && info.headerSize <= |image| then image[info.headerSize..] else image;
    Taken(data, info.dataSize, 0)
  }

  /** The low-level driver is ready to take the image whose header it is shown. */
  predicate Accepts(d: Driver, info: Info, image: seq<Byte>) {
    d.init(if info.headerSize == 0 then [] else image) == 0
  }

  lemma MappedDelivers(d: Driver, info: Info, image: seq<Byte>)
    ensures var p, m := ParseHeader(d, info, image), LoadMapped(d, info, image);
      var reached := p.ret == 0 && p.info.headerSize + p.info.dataSize <= |image| && Accepts(d, p.info, image);
      (!reached ==> m.ret != 0 && m.written == []) &&
      (reached ==> m.written == Payload(d, p.info, image) && m.info == p.info) &&
      (reached ==> m.ret == if d.write([], m.written) != 0 then d.write([], m.written) else d.complete) &&
      (!reached ==>
        m.ret ==
        if p.info.headerSize + p.info.dataSize > |image| then -EINVAL
        else if p.ret != 0 then p.ret
        else d.init(if p.info.headerSize == 0 then [] else image))
  {
  }

  lemma SgDelivers(d: Driver, info: Info, frags: seq<seq<Byte>>)
    requires Consistent(d, Flatten(frags)) && info.headerSize == d.initialHeaderSize
    ensures var image := Flatten(frags);
      var p, s := ParseHeader(d, info, image), LoadSg(d, info, frags);
      var reached := p.ret == 0 && Readable(d, frags) && Accepts(d, p.info, image);
      (!reached ==> s.ret != 0 && s.written == []) &&
      (p.ret !in {0, -EAGAIN} && Readable(d, frags) ==> s.ret == p.ret) &&
      (reached ==> s.written <= Payload(d, p.info, image) && s.info == p.info) &&
      (reached && s.ret == 0 ==> s.written == Payload(d, p.info, image) && d.complete == 0) &&
      (reached && d.complete == 0 && (forall w, c :: d.write(w, c) == 0) ==> s.ret == 0)
  {
    var image := Flatten(frags);
    var p := ParseHeader(d, info, image);
    var short := d.initialHeaderSize == 0 && d.parse.None?;
    if !short {
      var m := HeaderAgrees(d, info, frags);
      if p.ret == 0 && Readable(d, frags) {
        assert image[..|image|] == image;
        assert p.info.headerSize > 0 ==> d.init(image[..m]) == d.init(image);
        assert WriteInit(d, p.info, image[..m]) == WriteInit(d, p.info, image);
      }
    }
    if p.ret == 0 && Readable(d, frags) && Accepts(d, p.info, image) {
      var off := if d.skipHeader then p.info.headerSize else 0;
      SkipFlattens(frags, off);
      var rest := if d.skipHeader then Skip(frags, off) else Some(frags);
      assert Flatten(rest.value) == image[off..];
      assert image[0..] == image;
      ChunksAreTaken(d, rest.value, p.info.dataSize, 0, []);
      assert [] + Payload(d, p.info, image) == Payload(d, p.info, image);
    }
  }

  /** Loading a scatter list and loading its concatenation deliver the same byte stream whenever both
      succeed; a failing write leaves the scatter path with a prefix of that stream. */
  lemma SameStream(d: Driver, info: Info, frags: seq<seq<Byte>>)
    requires Consistent(d, Flatten(frags)) && info.headerSize == d.initialHeaderSize
    ensures var s, m := LoadSg(d, info, frags), LoadMapped(d, info, Flatten(frags));
      (s.ret == 0 && m.ret == 0 ==> s == m) &&
      (m.ret == 0 ==> s.written <= m.written)
  {
    SgDelivers(d, info, frags);
    MappedDelivers(d, info, Flatten(frags));
  }

  /** With a driver that accepts every write, the two paths agree on success exactly when the size check
      that only the contiguous path makes and the first look at the header that only the scatter path
      takes come out the same; nothing else can tell them apart. */
  lemma AgreeExactly(d: Driver, info: Info, frags: seq<seq<Byte>>)
    requires Consistent(d, Flatten(frags)) && info.headerSize == d.initialHeaderSize
    requires forall w, c :: d.write(w, c) == 0
    ensures var image := Flatten(frags);
      var p := ParseHeader(d, info, image);
      var s, m := LoadSg(d, info, frags), LoadMapped(d, info, image);
      var usable := p.ret == 0 && Accepts(d, p.info, image) && d.complete == 0;
      ((s.ret == 0 <==> m.ret == 0) <==>
        (usable ==> (p.info.headerSize + p.info.dataSize <= |image| <==> Readable(d, frags))))
  {
    SgDelivers(d, info, frags);
    MappedDelivers(d, info, Flatten(frags));
  }

  /** The two checks do differ: a data size beyond the image is refused by one path and ignored by the
      other. */
  lemma DataSizeOverrun(d: Driver)
    requires d == Driver(0, false, None, b => 0, (w, c) => 0, 0)
    ensures Consistent(d, Flatten([[7]]))
    ensures LoadMapped(d, Info(0, 2), Flatten([[7]])).ret == -EINVAL
    ensures LoadSg(d, Info(0, 2), [[7]]) == Outcome(0, OPERATING, Info(0, 2), [7])
  {
    assert Flatten([[7]]) == [7];
    SgDelivers(d, Info(0, 2), [[7]]);
    var s := LoadSg(d, Info(0, 2), [[7]]);
    assert Payload(d, Info(0, 2), [7]) == [7];
  }
}
