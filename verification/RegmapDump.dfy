/** The register dump file of drivers/base/regmap/regmap-debugfs.c: reads at any file position are
    served through a lazily built cache of the runs of printable registers. */
module RegmapDump {
  import opened Arithmetic
  import opened Common
  import Numeral

  const EINVAL: int := 22
  const EFAULT: int := 14

  /** One run of printable registers: file positions min..max, registers base_reg..max_reg. */
  datatype OffCache = OffCache(min: int, max: int, baseReg: int, maxReg: int)

  /** What one read call supplies: the byte count asked for, and what reading each register gives. */
  datatype Call = Call(count: nat, value: int -> Option<nat>)

  // ---------------------------------------------------------------- text of a register line

  /** v in exactly `width` hex digits. */
  function Hex(v: nat, width: nat): (t: string)
    ensures |t| == width
  {
    Numeral.Digits(v, width, 'a')
  }

  predicate FitsHex(v: nat, width: nat) {
    v == 0 || (width > 0 && FitsHex(v / 16, width - 1))
  }

  /** Number of hex digits printed for v. */
  function HexLen(v: nat): (n: nat)
    ensures n > 0 && FitsHex(v, n)
    ensures n > 1 ==> !FitsHex(v, n - 1)
  {
    if v < 16 then 1 else 1 + HexLen(v / 16)
  }

  lemma {:induction false} SmallerFits(v: nat, w: nat, width: nat)
    requires v <= w && FitsHex(w, width)
    ensures FitsHex(v, width)
  {
    if v > 0 { SmallerFits(v / 16, w / 16, width - 1); }
  }

  function Fill(c: char, n: nat): (t: string)
    ensures |t| == n
  {
    if n == 0 then "" else Fill(c, n - 1) + [c]
  }

  /** "%.*x: " of the register, then its value or a row of X, then a newline. */
  function Line(reg: nat, value: Option<nat>, regLen: nat, valLen: nat): (t: string)
    ensures |t| == regLen + valLen + 3
  {
    Hex(reg, regLen) + ": " + (if value.Some? then Hex(value.value, valLen) else Fill('X', valLen)) + "\n"
  }

  // ---------------------------------------------------------------- what a reader takes from a line

  /** The value of a lower-case hex digit, 16 for any other character. */
  function DigitValue(c: char): nat {
    if '0' <= c <= '9' then c as int - '0' as int
    else if 'a' <= c <= 'f' then c as int - 'a' as int + 10
    else 16
  }

  predicate HexDigits(t: string) {
    forall i :: 0 <= i < |t| ==> DigitValue(t[i]) < 16
  }

  /** The number a run of hex digits stands for. */
  function ReadHex(t: string): nat {
    if t == "" then 0 else 16 * ReadHex(t[..|t| - 1]) + DigitValue(t[|t| - 1])
  }

  lemma {:induction false} HexReads(v: nat, width: nat)
    ensures HexDigits(Hex(v, width))
    ensures FitsHex(v, width) ==> ReadHex(Hex(v, width)) == v
  {
    if width > 0 {
      HexReads(v / 16, width - 1);
      var t := Hex(v, width);
      assert t[..width - 1] == Hex(v / 16, width - 1);
    }
  }

  lemma {:induction false} FillIsFilled(c: char, n: nat)
    ensures forall i :: 0 <= i < n ==> Fill(c, n)[i] == c
  {
    if n > 0 { FillIsFilled(c, n - 1); }
  }

  /** A line as its reader sees it: a register number, a colon, and the register's value or, when it could not
      be read, a row of X. */
  predicate ReadsAs(t: string, reg: int, value: Option<nat>, regLen: nat, valLen: nat) {
    |t| == regLen + valLen + 3 &&
    HexDigits(t[..regLen]) && ReadHex(t[..regLen]) == reg &&
    t[regLen] == ':' && t[regLen + 1] == ' ' &&
    ReadsValue(t[regLen + 2..regLen + 2 + valLen], value) &&
    t[regLen + 2 + valLen] == '\n'
  }

  predicate ReadsValue(t: string, value: Option<nat>) {
    if value.Some? then HexDigits(t) && ReadHex(t) == value.value else forall i :: 0 <= i < |t| ==> t[i] == 'X'
  }

  lemma LineReads(reg: nat, value: Option<nat>, regLen: nat, valLen: nat)
    requires FitsHex(reg, regLen) && (value.Some? ==> FitsHex(value.value, valLen))
    ensures ReadsAs(Line(reg, value, regLen, valLen), reg, value, regLen, valLen)
  {
    hide HexDigits; hide ReadHex; hide Hex; hide Fill; hide FitsHex;
    HexReads(reg, regLen);
    var body := if value.Some? then Hex(value.value, valLen) else Fill('X', valLen);
    if value.Some? { HexReads(value.value, valLen); } else { FillIsFilled('X', valLen); }
    var t := Line(reg, value, regLen, valLen);
    assert t[..regLen] == Hex(reg, regLen);
    assert t[regLen + 2..regLen + 2 + valLen] == body;
  }

  class Regmap {
    const printable: int -> bool
    const maxRegister: nat
    const stride: nat
    const valBytes: nat
    /** Largest kernel buffer, PAGE_SIZE << (MAX_ORDER - 1). */
    const bufLimit: nat
    var regLen: nat
    var valLen: nat
    var totLen: nat
    var cache: seq<OffCache>
    ghost var cut: seq<nat>

    constructor (printable: int -> bool, maxRegister: nat, stride: nat, valBytes: nat, bufLimit: nat)
      requires stride > 0 && maxRegister + stride < 0x8000_0000 && bufLimit >= HexLen(maxRegister) + 2 * valBytes + 3
      requires forall r :: printable(r) ==> 0 <= r <= maxRegister
      ensures Valid() && cache == []
      ensures this.printable == printable && this.maxRegister == maxRegister && this.stride == stride
      ensures this.valBytes == valBytes && this.bufLimit == bufLimit
    {
      this.printable, this.maxRegister, this.stride, this.valBytes := printable, maxRegister, stride, valBytes;
      this.bufLimit := bufLimit;
      regLen, valLen, totLen, cache, cut := 0, 0, 0, [], [];
    }

    /** The plain scan: every printable register from i up, in steps of the stride. */
    ghost function From(i: int): seq<int>
      requires stride > 0
      decreases maxRegister - i
    {
      if i > maxRegister then [] else (if printable(i) then [i] else []) + From(i + stride)
    }

    ghost function Regs(): seq<int>
      requires stride > 0
    {
      From(0)
    }

    function LineLen(): (n: nat)
      ensures n > 0
    {
      HexLen(maxRegister) + 2 * valBytes + 3
    }

    /** File position of line n. */
    ghost function Pos(n: nat): nat {
      if n == 0 then 0 else Pos(n - 1) + LineLen()
    }

    lemma {:induction false} PosIsProduct(n: nat)
      ensures Pos(n) == n * LineLen()
    {
      if n > 0 {
        PosIsProduct(n - 1);
        assert n * LineLen() == (n - 1) * LineLen() + LineLen();
      }
    }

    ghost predicate Valid()
      reads this
    {
      stride > 0 && maxRegister + stride < 0x8000_0000 && bufLimit >= LineLen() &&
      (forall r :: printable(r) ==> 0 <= r <= maxRegister) &&
      (totLen != 0 ==> regLen == HexLen(maxRegister) && valLen == 2 * valBytes && totLen == LineLen()) &&
      (cache != [] ==> CacheOk(cache, cut, Regs()))
    }

    /** The cache is exactly the maximal runs of printable registers, at contiguous file positions:
        run e holds the registers of `regs` from index cut[e] up to cut[e + 1]. */
    ghost predicate CacheOk(cache: seq<OffCache>, cut: seq<nat>, regs: seq<int>) {
      Runs(cache, cut, regs) && |cut| == |cache| + 1 && cut[|cache|] == |regs|
    }

    ghost predicate Runs(cache: seq<OffCache>, cut: seq<nat>, regs: seq<int>) {
      |cut| > |cache| && cut[0] == 0 &&
      forall e :: 0 <= e < |cache| ==> IsRun(cache[e], cut[e], cut[e + 1], regs)
    }

    ghost predicate IsRun(c: OffCache, a: nat, b: nat, regs: seq<int>) {
      a < b <= |regs| && c.min == Pos(a) && c.max == Pos(b) - 1 &&
      c.baseReg == regs[a] && c.maxReg == regs[b - 1] &&
      Contiguous(regs, a, b) &&
      (a > 0 ==> regs[a] > regs[a - 1] + stride) && (b < |regs| ==> regs[b] > regs[b - 1] + stride)
    }

    ghost predicate Contiguous(regs: seq<int>, a: nat, b: nat) {
      b <= |regs| && forall j :: a < j < b ==> regs[j] == regs[j - 1] + stride
    }

    lemma {:induction false} FromAscending(i: int)
      requires stride > 0
      ensures forall j :: 0 <= j < |From(i)| ==> i <= From(i)[j] <= maxRegister && printable(From(i)[j])
      ensures forall j :: 0 < j < |From(i)| ==> From(i)[j] >= From(i)[j - 1] + stride
      decreases maxRegister - i
    {
      if i <= maxRegister {
        FromAscending(i + stride);
        var rest := From(i + stride);
        assert From(i) == (if printable(i) then [i] else []) + rest;
        forall j | 0 < j < |From(i)|
          ensures From(i)[j] >= From(i)[j - 1] + stride
        {
          if printable(i) {
            assert From(i)[j] == rest[j - 1];
            if j > 1 { assert From(i)[j - 1] == rest[j - 2]; }
          }
        }
      }
    }

    /** The plain scan finds exactly the printable registers at multiples of the stride. */
    lemma {:induction false} FromFindsAll(i: nat, r: int)
      requires stride > 0 && i % stride == 0
      requires forall q :: printable(q) ==> 0 <= q <= maxRegister
      ensures r in From(i) <==> r >= i && r % stride == 0 && printable(r)
      decreases maxRegister - i
    {
      if i <= maxRegister {
        NextMultiple(i, stride, r);
        FromFindsAll(i + stride, r);
      }
    }

    /** From any of its own registers, the plain scan goes on with the rest of the list. */
    lemma {:induction false} SuffixIsFrom(i: int, j: nat)
      requires stride > 0 && j < |From(i)|
      ensures From(i)[j..] == From(From(i)[j])
      decreases maxRegister - i
    {
      var rest := From(i + stride);
      if printable(i) {
        assert From(i) == [i] + rest;
        if j > 0 {
          SuffixIsFrom(i + stride, j - 1);
          assert From(i)[j..] == rest[j - 1..] && From(i)[j] == rest[j - 1];
        } else {
          assert From(i)[0..] == From(i);
        }
      } else {
        assert From(i) == rest;
        SuffixIsFrom(i + stride, j);
      }
    }

    /** The register after regs[j] is the next one on the grid whenever that is printable. */
    lemma Successor(j: nat)
      requires Valid() && j < |Regs()|
      ensures printable(Regs()[j] + stride) ==> j + 1 < |Regs()| && Regs()[j + 1] == Regs()[j] + stride
      ensures j + 1 < |Regs()| && !printable(Regs()[j] + stride) ==> Regs()[j + 1] > Regs()[j] + stride
    {
      var regs := Regs();
      SuffixIsFrom(0, j);
      FromAscending(0);
      var r := regs[j];
      assert From(r) == [r] + From(r + stride);
      assert regs[j..] == From(r);
      if printable(r + stride) {
        assert From(r)[1] == r + stride;
        assert regs[j..][1] == r + stride;
      } else if j + 1 < |regs| {
        assert printable(regs[j + 1]);
      }
    }

    lemma {:induction false} RunValue(regs: seq<int>, a: nat, b: nat, t: nat)
      requires Contiguous(regs, a, b) && a + t < b
      ensures regs[a + t] == regs[a] + t * stride
    {
      if t > 0 {
        RunValue(regs, a, b, t - 1);
        assert regs[a + t] == regs[a + t - 1] + stride;
        assert t * stride == (t - 1) * stride + stride;
      }
    }

    // -------------------------------------------------------------- the plain scan as reference

    /** Walk the registers from i at position p until the line holding position `at`. */
    ghost function ScanFor(i: int, p: int, at: int): Option<(int, int)>
      requires stride > 0
      decreases maxRegister - i
    {
      if i > maxRegister then None
      else if !printable(i) then ScanFor(i + stride, p, at)
      else if at < p + LineLen() then Some((i, p))
      else ScanFor(i + stride, p + LineLen(), at)
    }

    lemma {:induction false} ScanForFinds(i: int, n: nat, at: int, k: nat)
      requires stride > 0 && Pos(n + k) <= at < Pos(n + k + 1)
      ensures ScanFor(i, Pos(n), at) == if k < |From(i)| then Some((From(i)[k], Pos(n + k))) else None
      decreases maxRegister - i
    {
      hide LineLen;
      hide Pos;
      hide From;
      FromStep(i);
      if i <= maxRegister {
        if !printable(i) {
          ScanForFinds(i + stride, n, at, k);
        } else {
          PosStep(n);
          PosMonotone(n + 1, n + k + 1);
          if k > 0 {
            PosMonotone(n + 1, n + k);
            ScanForFinds(i + stride, n + 1, at, k - 1);
          }
        }
      }
    }

    lemma FromStep(i: int)
      requires stride > 0
      ensures i > maxRegister ==> From(i) == []
      ensures i <= maxRegister ==> From(i) == (if printable(i) then [i] else []) + From(i + stride)
    {
      hide LineLen;
      if i <= maxRegister { assert [] + From(i + stride) == From(i + stride); }
    }

    lemma PosStep(n: nat)
      ensures Pos(n + 1) == Pos(n) + LineLen()
    {
    }

    lemma {:induction false} PosMonotone(a: nat, b: nat)
      requires a <= b
      ensures Pos(a) <= Pos(b) && (a < b ==> Pos(a) < Pos(b))
    {
      if a < b { PosMonotone(a, b - 1); }
    }

    /** The line a position falls into. */
    ghost function LineNo(at: nat): nat {
      DivNat(at, LineLen())
    }

    lemma LineOf(at: nat)
      ensures Pos(LineNo(at)) <= at < Pos(LineNo(at) + 1)
    {
      PosIsProduct(LineNo(at));
      PosIsProduct(LineNo(at) + 1);
      hide LineLen;
      hide Pos;
      DivBounds(at, LineLen());
    }

    lemma PosZero()
      ensures Pos(0) == 0
    {
    }

    // -------------------------------------------------------------- the lookup

    method CalcTotLen()
      requires Valid()
      modifies this`regLen, this`valLen, this`totLen
      ensures Valid() && totLen == LineLen() && regLen == HexLen(maxRegister) && valLen == 2 * valBytes
    {
      if totLen == 0 {
        regLen := HexLen(maxRegister);
        valLen := 2 * valBytes;
        totLen := regLen + valLen + 3;
      }
    }

    /** start and pos are the register and the beginning of the line that holds position `from`. */
    ghost predicate InLine(from: nat, start: int, pos: int)
      requires stride > 0
    {
      LineNo(from) < |Regs()| && start == Regs()[LineNo(from)] && pos == Pos(LineNo(from))
    }

    ghost predicate AtEnd(start: int, pos: int)
      requires stride > 0
    {
      Regs() != [] && start == Regs()[|Regs()| - 1] && pos == Pos(|Regs()|) - 1
    }

    /** Where a dump read at position `from` starts: the register, and the position of its line. The
        cache is built on the first call and only read afterwards. */
    method GetDumpStart(base: nat, from: nat) returns (start: int, pos: int)
      requires Valid() && totLen == LineLen()
      requires base == 0 ==> Regs() != []
      modifies this`cache, this`cut
      ensures Valid()
      ensures base != 0 ==> start == base && pos == from && cache == old(cache)
      ensures base == 0 ==> CacheOk(cache, cut, Regs())
      ensures old(cache) != [] ==> cache == old(cache)
      ensures base == 0 && from < Pos(|Regs()|) ==>
        ScanFor(0, 0, from) == Some((start, pos)) && InLine(from, start, pos)
      ensures base == 0 && from >= Pos(|Regs()|) ==> ScanFor(0, 0, from) == None && AtEnd(start, pos)
    {
      pos := from;
      if base != 0 {
        return base, pos;
      }
      if cache == [] {
        BuildCache();
      }
      start, pos := Lookup(base, from);
      ghost var k := LineNo(from);
      LineOf(from);
      assert 0 + k == k;
      ScanForFinds(0, 0, from, k);
      if from >= Pos(|Regs()|) && k < |Regs()| { PosMonotone(k + 1, |Regs()|); }
    }

    /** The scan has reached register i and position p, with n printable registers behind it. */
    ghost predicate Scanned(cache: seq<OffCache>, cut: seq<nat>, open: Option<OffCache>, n: nat, p: int, i: int)
      requires stride > 0
    {
      var regs := Regs();
      0 <= i && n <= |regs| && p == Pos(n) && regs[n..] == From(i) &&
      Runs(cache, cut, regs) && |cut| == |cache| + 1 &&
      (n > 0 ==> regs[n - 1] <= i - stride) &&
      (open.None? ==> cut[|cache|] == n && (n > 0 ==> regs[n - 1] < i - stride)) &&
      (open.Some? ==> n > 0 && IsOpen(open.value, cut[|cache|], n, regs) && regs[n - 1] == i - stride)
    }

    function Closed(c: OffCache, p: int, i: int): OffCache {
      c.(max := p - 1, maxReg := i - stride)
    }

    lemma SkipRegister(cache: seq<OffCache>, cut: seq<nat>, open: Option<OffCache>, n: nat, p: int, i: int)
      requires stride > 0 && i <= maxRegister && !printable(i) && Scanned(cache, cut, open, n, p, i)
      ensures open.Some? ==> Scanned(cache + [Closed(open.value, p, i)], cut + [n], None, n, p, i + stride)
      ensures open.None? ==> Scanned(cache, cut, None, n, p, i + stride)
    {
      hide Runs;
      hide Pos;
      hide Contiguous;
      hide LineLen;
      hide From;
      hide Regs;
      FromStep(i);
      assert [] + From(i + stride) == From(i + stride);
      StartsAt(Regs(), n, i + stride);
      if open.Some? {
        ClosedIsRun(open.value, cut[|cache|], n, p, i);
        ExtendRuns(cache, cut, Closed(open.value, p, i), n);
      }
      hide IsOpen;
    }

    /** The registers still to come start no earlier than where the scan is. */
    lemma StartsAt(regs: seq<int>, n: nat, i: int)
      requires stride > 0 && n <= |regs| && regs[n..] == From(i)
      ensures n < |regs| ==> regs[n] >= i
    {
      FromAscending(i);
      assert n < |regs| ==> regs[n..][0] == regs[n];
    }

    /** The run being read ends before a register that is not printable. */
    lemma ClosedIsRun(c: OffCache, a: nat, n: nat, p: int, i: int)
      requires stride > 0 && IsOpen(c, a, n, Regs()) && p == Pos(n) && Regs()[n - 1] == i - stride
      requires n < |Regs()| ==> Regs()[n] > i
      ensures IsRun(Closed(c, p, i), a, n, Regs())
    {
      hide Regs;
      hide Pos;
      hide Contiguous;
    }

    lemma ExtendRuns(cache: seq<OffCache>, cut: seq<nat>, c: OffCache, n: nat)
      requires stride > 0 && Runs(cache, cut, Regs()) && |cut| == |cache| + 1
      requires IsRun(c, cut[|cache|], n, Regs())
      ensures Runs(cache + [c], cut + [n], Regs())
    {
      var cache', cut' := cache + [c], cut + [n];
      forall e | 0 <= e < |cache'|
        ensures IsRun(cache'[e], cut'[e], cut'[e + 1], Regs())
      {
        if e < |cache| { assert IsRun(cache[e], cut[e], cut[e + 1], Regs()); }
      }
    }

    lemma PrintRegister(cache: seq<OffCache>, cut: seq<nat>, open: Option<OffCache>, n: nat, p: int, i: int)
      requires stride > 0 && i <= maxRegister && printable(i) && Scanned(cache, cut, open, n, p, i)
      ensures var open' := if open.Some? then open else Some(OffCache(p, 0, i, 0));
        Scanned(cache, cut, open', n + 1, p + LineLen(), i + stride)
    {
      var regs := Regs();
      assert From(i) == [i] + From(i + stride);
      assert regs[n..][0] == i && regs[n + 1..] == regs[n..][1..] == From(i + stride);
    }

    lemma ScanStart()
      requires stride > 0
      ensures Scanned([], [0], None, 0, 0, 0)
    {
      assert Regs()[0..] == From(0);
    }

    lemma ScanDone(cache: seq<OffCache>, cut: seq<nat>, open: Option<OffCache>, n: nat, p: int, i: int)
      requires stride > 0 && i > maxRegister && Scanned(cache, cut, open, n, p, i)
      ensures open.Some? ==> CacheOk(cache + [Closed(open.value, p, i)], cut + [n], Regs())
      ensures open.None? ==> CacheOk(cache, cut, Regs())
    {
      assert Regs()[n..] == [];
      if open.Some? { ExtendRuns(cache, cut, Closed(open.value, p, i), n); }
    }

    /** One scan over the register map, opening an entry at each printable register that follows an
        unprintable one and closing it at the next unprintable one. */
    method BuildCache()
      requires Valid() && totLen == LineLen() && cache == []
      modifies this`cache, this`cut
      ensures Valid() && CacheOk(cache, cut, Regs())
    {
      hide Runs;
      hide IsRun;
      hide Scanned;
      hide CacheOk;
      hide LineLen;
      hide From;
      hide Regs;
      var p, i := 0, 0;
      var open: Option<OffCache> := None;
      ghost var n: nat := 0;
      cut := [0];
      ScanStart();
      while i <= maxRegister
        invariant Scanned(cache, cut, open, n, p, i)
        decreases maxRegister + stride - i
      {
        if !printable(i) {
          SkipRegister(cache, cut, open, n, p, i);
          if open.Some? {
            cache, cut := cache + [Closed(open.value, p, i)], cut + [n];
            open := None;
          }
        } else {
          PrintRegister(cache, cut, open, n, p, i);
          if open.None? {
            open := Some(OffCache(p, 0, i, 0));
          }
          p := p + totLen;
          n := n + 1;
        }
        i := i + stride;
      }
      ScanDone(cache, cut, open, n, p, i);
      if open.Some? {
        cache, cut := cache + [Closed(open.value, p, i)], cut + [n];
      }
    }

    ghost predicate IsOpen(c: OffCache, a: nat, n: nat, regs: seq<int>) {
      a < n <= |regs| && c.min == Pos(a) && c.baseReg == regs[a] && Contiguous(regs, a, n) &&
      (a > 0 ==> regs[a] > regs[a - 1] + stride)
    }

    /** Find the entry holding the position; past the end, the last position and register are left. */
    method Lookup(base: nat, from: nat) returns (ret: int, pos: int)
      requires Valid() && totLen == LineLen() && CacheOk(cache, cut, Regs()) && Regs() != []
      ensures from < Pos(|Regs()|) ==> InLine(from, ret, pos)
      ensures from >= Pos(|Regs()|) ==> AtEnd(ret, pos)
    {
      hide LineLen;
      hide From;
      hide Pos;
      hide LineNo;
      PosZero();
      ret, pos := base, from;
      var e := 0;
      while e < |cache|
        invariant 0 <= e <= |cache| && from >= Pos(cut[e])
        invariant e > 0 ==> 0 < cut[e] <= |Regs()| && ret == Regs()[cut[e] - 1] && pos == Pos(cut[e]) - 1
      {
        var c := cache[e];
        assert IsRun(c, cut[e], cut[e + 1], Regs());
        if c.min <= from <= c.max {
          var regOffset := (from - c.min) / totLen;
          InRun(from, cut[e], cut[e + 1], regOffset);
          RunValue(Regs(), cut[e], cut[e + 1], regOffset);
          PosMonotone(cut[e + 1], |Regs()|);
          return c.baseReg + regOffset * stride, c.min + regOffset * totLen;
        }
        ret, pos := c.maxReg, c.max;
        e := e + 1;
      }
    }

    lemma InRun(from: nat, a: nat, b: nat, t: nat)
      requires Pos(a) <= from < Pos(b) && t == (from - Pos(a)) / LineLen()
      ensures a + t < b && LineNo(from) == a + t && Pos(a) + t * LineLen() == Pos(a + t)
    {
      PosIsProduct(a);
      PosIsProduct(b);
      PosIsProduct(a + t);
      InRunArith(from, a, b, LineLen(), t);
    }

    /** The register printed after `reg`: the next on the grid if printable, else the head of the next
        run. The last printable register has no successor. */
    method NextReadableReg(reg: int, ghost j: nat) returns (ret: int)
      requires Valid() && CacheOk(cache, cut, Regs()) && j < |Regs()| && reg == Regs()[j]
      ensures ret == if j + 1 < |Regs()| then Regs()[j + 1] else -EINVAL
    {
      hide LineLen;
      hide From;
      hide Pos;
      ret := -EINVAL;
      Successor(j);
      FromAscending(0);
      Ordered(Regs(), stride);
      hide HexLen;
      hide Regs;
      if printable(reg + stride) {
        ret := reg + stride;
      } else {
        var e := 0;
        while e < |cache|
          invariant 0 <= e <= |cache| && cut[e] <= j + 1
        {
          var c := cache[e];
          assert IsRun(c, cut[e], cut[e + 1], Regs());
          if reg > c.maxReg {
            e := e + 1;
            continue;
          }
          if reg < c.baseReg {
            ret := c.baseReg;
            break;
          }
          assert j + 1 >= cut[e + 1];
          e := e + 1;
        }
      }
    }

    // -------------------------------------------------------------- reading the dump

    ghost function Text(regs: seq<int>, value: int -> Option<nat>): string {
      if regs == [] then ""
      else Text(regs[..|regs| - 1], value) + LineOfReg(regs[|regs| - 1], value(regs[|regs| - 1]))
    }

    ghost function LineOfReg(reg: int, value: Option<nat>): string {
      if reg < 0 then "" else Line(reg, value, HexLen(maxRegister), 2 * valBytes)
    }

    /** First line that starts at or after a file position, or the number of lines. */
    ghost function FirstLine(ppos: nat): (k: nat)
      requires stride > 0
      ensures k <= |Regs()|
    {
      var k := if Pos(LineNo(ppos)) == ppos then LineNo(ppos) else LineNo(ppos) + 1;
      if k < |Regs()| then k else |Regs()|
    }

    /** How many whole lines a read serves. */
    ghost function LinesServed(ppos: nat, count: nat): (n: nat)
      requires stride > 0
      ensures FirstLine(ppos) + n <= |Regs()|
    {
      var room := LineNo(if count > bufLimit then bufLimit else count);
      if room < |Regs()| - FirstLine(ppos) then room else |Regs()| - FirstLine(ppos)
    }

    /** What a read at ppos hands to the user: as many whole lines as fit, from the first that starts
        at or after ppos. */
    ghost function ReadText(ppos: nat, call: Call): string
      requires stride > 0
    {
      var k := FirstLine(ppos);
      Text(Regs()[k..k + LinesServed(ppos, call.count)], call.value)
    }

    /** From line k on n whole lines: the first that starts at or after the position, and as many as fit. */
    ghost predicate WholeLines(ppos: nat, count: nat, k: nat, n: nat)
      requires stride > 0
    {
      var size := if count > bufLimit then bufLimit else count;
      k + n <= |Regs()| && (k < |Regs()| ==> ppos <= Pos(k)) && (k > 0 ==> Pos(k - 1) < ppos) &&
      Pos(n) <= size && (k + n < |Regs()| ==> size < Pos(n + 1))
    }

    /** A read hands out exactly those lines. */
    ghost predicate ServesLines(ppos: nat, call: Call, text: string)
      requires stride > 0
    {
      exists k: nat, n: nat :: WholeLines(ppos, call.count, k, n) && IsDump(text, Regs()[k..k + n], [call])
    }

    lemma ServesWholeLines(ppos: nat, count: nat)
      requires stride > 0
      ensures WholeLines(ppos, count, FirstLine(ppos), LinesServed(ppos, count))
    {
      hide LineLen; hide Regs;
      var size := if count > bufLimit then bufLimit else count;
      var k, n := FirstLine(ppos), LinesServed(ppos, count);
      LineOf(ppos);
      LineOf(size);
      PosMonotone(n, LineNo(size));
      if k > 0 { PosMonotone(k - 1, LineNo(ppos)); }
    }

    lemma ReadIsDump(ppos: nat, call: Call)
      requires stride > 0 && Fit(call.value)
      ensures ServesLines(ppos, call, ReadText(ppos, call))
    {
      hide WholeLines; hide IsDump; hide Fit; hide LineLen; hide FirstLine; hide LinesServed; hide From; hide Text;
      var k, n := FirstLine(ppos), LinesServed(ppos, call.count);
      ServesWholeLines(ppos, call.count);
      FromAscending(0);
      TextIsDump(Regs()[k..k + n], call);
    }

    lemma CountLines(count: nat, n: nat)
      requires Pos(n) <= count
      ensures n <= LineNo(count) && (count < Pos(n + 1) ==> LineNo(count) == n)
    {
      LineOf(count);
      if LineNo(count) < n { PosMonotone(LineNo(count) + 1, n); }
      if n < LineNo(count) { PosMonotone(n + 1, LineNo(count)); }
    }

    /** Formats one register in place at bufPos. */
    method PutLine(buf: array<char>, bufPos: nat, reg: nat, value: Option<nat>) returns (bufPos': nat)
      requires Valid() && totLen == LineLen() && bufPos + totLen <= buf.Length && reg <= maxRegister
      requires value.Some? ==> FitsHex(value.value, 2 * valBytes)
      modifies buf
      ensures bufPos' == bufPos + totLen
      ensures buf[..bufPos'] == old(buf[..bufPos]) + LineOfReg(reg, value)
    {
      hide Hex; hide Fill; hide HexLen; hide FitsHex; hide CacheOk; hide Regs; hide From;
      SmallerFits(reg, maxRegister, regLen);
      ghost var before := buf[..bufPos];
      Snprintf(buf, bufPos, Hex(reg, regLen) + ": ");
      var p := bufPos + regLen + 2;
      if value.Some? {
        Snprintf(buf, p, Hex(value.value, valLen));
      } else {
        Memset(buf, p, 'X', valLen);
      }
      p := p + 2 * valBytes;
      assert buf[..p] ==
        before + (Hex(reg, regLen) + ": ") + (if value.Some? then Hex(value.value, valLen) else Fill('X', valLen));
      buf[p] := '\n';
      bufPos' := p + 1;
      assert buf[..bufPos'] == buf[..p] + "\n";
    }

    /** The whole read call. `value` is what reading each register gives during this call; each register
        is read at most once. `copied` is whether the copy to user space succeeds. */
    method ReadDebugfs(count: nat, ppos: int, value: int -> Option<nat>, copied: bool)
      returns (ret: int, data: string, newPos: int)
      requires Valid() && Regs() != []
      requires Fit(value)
      modifies this
      ensures Valid()
      ensures ppos < 0 || count == 0 ==> ret == -EINVAL && data == "" && newPos == ppos
      ensures ppos >= 0 && count > 0 && !copied ==> ret == -EFAULT && data == "" && newPos == ppos
      ensures ppos >= 0 && count > 0 && copied ==>
        data == ReadText(ppos, Call(count, value)) && ret == |data| && newPos == ppos + ret
      ensures ppos >= 0 && count > 0 && copied ==>
        ServesLines(ppos, Call(count, value), data)
    {
      hide LineLen;
      hide CacheOk;
      hide Regs;
      hide Text;
      hide FirstLine;
      hide LineNo;
      hide Fit;
      hide ServesLines;
      if ppos < 0 || count == 0 {
        return -EINVAL, "", ppos;
      }
      var size := if count > bufLimit then bufLimit else count;
      var buf := new char[size];
      CalcTotLen();
      var bufPos := Format(buf, ppos, value);
      if !copied {
        return -EFAULT, "", ppos;
      }
      data := buf[..bufPos];
      ReadIsDump(ppos, Call(count, value));
      return bufPos, data, ppos + bufPos;
    }

    /** Where the formatting loop stands: at register i, which is number j, and at position p. */
    ghost predicate At(ppos: nat, i: int, p: int, j: nat)
      requires stride > 0
    {
      var regs, lo := Regs(), FirstLine(ppos);
      j <= |regs| && (if i < 0 then j == |regs| else j < |regs| && i == regs[j] && i <= maxRegister) &&
      (if i < 0 || p >= ppos then lo <= j else j + 1 == lo) &&
      (i >= 0 ==> if p >= ppos || lo < |regs| then p == Pos(j) && ppos <= Pos(lo) else true)
    }

    lemma StartAt(ppos: nat, start: int, pos: int) returns (j: nat)
      requires Valid() && Regs() != []
      requires if ppos < Pos(|Regs()|) then InLine(ppos, start, pos) else AtEnd(start, pos)
      ensures At(ppos, start, pos, j) && start >= 0 && (pos >= ppos ==> j == FirstLine(ppos))
    {
      FromAscending(0);
      LineOf(ppos);
      var k, n := LineNo(ppos), |Regs()|;
      j := if ppos < Pos(n) then k else n - 1;
      if k >= n { PosMonotone(n, k); }
      if k < n { PosMonotone(k + 1, n); }
    }

    lemma NextAt(ppos: nat, i: int, p: int, j: nat, next: int)
      requires Valid() && i >= 0 && At(ppos, i, p, j)
      requires next == if j + 1 < |Regs()| then Regs()[j + 1] else -EINVAL
      ensures At(ppos, next, p + LineLen(), j + 1)
    {
      FromAscending(0);
    }

    lemma Served(ppos: nat, i: int, p: int, j: nat, n: nat, size: nat)
      requires Valid() && At(ppos, i, p, j) && (i < 0 || (p >= ppos && Pos(n) + LineLen() > size)) && Pos(n) <= size
      requires j == FirstLine(ppos) + n && size <= bufLimit
      ensures n == LinesServed(ppos, size)
    {
      CountLines(size, n);
    }

    lemma TextSnoc(lo: nat, j: nat, value: int -> Option<nat>)
      requires stride > 0 && lo <= j < |Regs()|
      ensures Text(Regs()[lo..j + 1], value) == Text(Regs()[lo..j], value) + LineOfReg(Regs()[j], value(Regs()[j]))
    {
      hide Regs;
      hide LineOfReg;
      assert Regs()[lo..j + 1][..j - lo] == Regs()[lo..j];
    }

    /** The formatting loop of the read call. */
    method Format(buf: array<char>, ppos: nat, value: int -> Option<nat>) returns (bufPos: nat)
      requires Valid() && Regs() != [] && totLen == LineLen() && buf.Length <= bufLimit
      requires Fit(value)
      modifies this`cache, this`cut, buf
      ensures Valid() && bufPos <= buf.Length
      ensures buf[..bufPos] == ReadText(ppos, Call(buf.Length, value))
    {
      hide LineLen;
      hide CacheOk;
      hide From;
      hide Regs;
      hide Text;
      hide LineNo;
      hide FirstLine;
      hide LineOfReg;
      hide HexLen;
      hide FitsHex;
      hide InLine;
      hide AtEnd;
      hide ScanFor;
      hide Hex;
      ghost var lo := FirstLine(ppos);
      var i, p := GetDumpStart(0, ppos);
      bufPos := 0;
      ghost var j := StartAt(ppos, i, p);
      ghost var n: nat := 0;
      TextEmpty(lo, value);
      while 0 <= i <= maxRegister
        invariant Valid() && totLen == LineLen() && CacheOk(cache, cut, Regs())
        invariant At(ppos, i, p, j) && bufPos == Pos(n) <= buf.Length
        invariant if i < 0 || p >= ppos then j == lo + n else n == 0
        invariant lo + n <= |Regs()| && buf[..bufPos] == Text(Regs()[lo..lo + n], value)
        decreases |Regs()| - j
      {
        ghost var printing := p >= ppos;
        if p >= ppos {
          if bufPos + totLen > buf.Length {
            break;
          }
          bufPos := PutLine(buf, bufPos, i, value(i));
          TextSnoc(lo, j, value);
          n := n + 1;
        }
        ghost var i0 := i;
        i := NextReadableReg(i, j);
        NextAt(ppos, i0, p, j, i);
        p := p + totLen;
        j := j + 1;
      }
      Served(ppos, i, p, j, n, buf.Length);
    }

    lemma TextEmpty(lo: nat, value: int -> Option<nat>)
      requires stride > 0 && lo <= |Regs()|
      ensures Text(Regs()[lo..lo], value) == "" && Pos(0) == 0
    {
    }

    // -------------------------------------------------------------- a whole session of reads

    /** A line that reads as this register with the value one of these calls found in it. */
    ghost predicate IsLine(t: string, reg: int, calls: seq<Call>) {
      exists c :: c in calls && ReadsAs(t, reg, c.value(reg), HexLen(maxRegister), 2 * valBytes)
    }

    /** One line for each of exactly these registers, in this order, with values these calls found. */
    ghost predicate IsDump(text: string, regs: seq<int>, calls: seq<Call>) {
      if regs == [] then (text == "") else (
        var l := |text| - LineLen();
        l >= 0 && IsLine(text[l..], regs[|regs| - 1], calls) && IsDump(text[..l], regs[..|regs| - 1], calls))
    }

    /** Values of as many bytes as the registers have. */
    ghost predicate Fit(value: int -> Option<nat>) {
      forall r :: value(r).Some? ==> FitsHex(value(r).value, 2 * valBytes)
    }

    /** The reads of one open file, each continuing where the one before stopped. */
    ghost function Session(calls: seq<Call>, ppos: nat): string
      requires stride > 0
    {
      if calls == [] then ""
      else (var t := ReadText(ppos, calls[0]); t + Session(calls[1..], ppos + |t|))
    }

    /** The last read, and no read before it, returns nothing. */
    ghost predicate EndsEmpty(calls: seq<Call>, ppos: nat)
      requires stride > 0
    {
      calls != [] && (
        var t := ReadText(ppos, calls[0]);
        if t == "" then |calls| == 1 else EndsEmpty(calls[1..], ppos + |t|))
    }

    lemma LineIsLine(reg: nat, call: Call)
      requires reg <= maxRegister && Fit(call.value)
      ensures |LineOfReg(reg, call.value(reg))| == LineLen() && IsLine(LineOfReg(reg, call.value(reg)), reg, [call])
    {
      hide FitsHex; hide ReadsAs;
      SmallerFits(reg, maxRegister, HexLen(maxRegister));
      LineReads(reg, call.value(reg), HexLen(maxRegister), 2 * valBytes);
      assert call in [call];
    }

    lemma {:induction false} TextIsDump(regs: seq<int>, call: Call)
      requires (forall k :: 0 <= k < |regs| ==> 0 <= regs[k] <= maxRegister) && Fit(call.value)
      ensures IsDump(Text(regs, call.value), regs, [call]) && |Text(regs, call.value)| == Pos(|regs|)
    {
      hide Fit;
      if regs != [] {
        var init, r := regs[..|regs| - 1], regs[|regs| - 1];
        TextIsDump(init, call);
        LineIsLine(r, call);
        hide LineLen;
        hide LineOfReg;
        hide IsLine;
        var t, l := Text(init, call.value), LineOfReg(r, call.value(r));
        assert Text(regs, call.value) == t + l;
        assert (t + l)[..|t + l| - LineLen()] == t && (t + l)[|t + l| - LineLen()..] == l;
      }
    }

    /** More calls can only find more. */
    lemma {:induction false} MoreCalls(text: string, regs: seq<int>, some: seq<Call>, all: seq<Call>)
      requires IsDump(text, regs, some) && forall c :: c in some ==> c in all
      ensures IsDump(text, regs, all)
    {
      hide ReadsAs;
      if regs != [] {
        MoreCalls(text[..|text| - LineLen()], regs[..|regs| - 1], some, all);
      }
    }

    lemma DumpSnoc(text: string, line: string, regs: seq<int>, reg: int, calls: seq<Call>)
      requires IsDump(text, regs, calls) && |line| == LineLen() && IsLine(line, reg, calls)
      ensures IsDump(text + line, regs + [reg], calls)
    {
      hide LineLen;
      hide IsLine;
      var t, r := text + line, regs + [reg];
      assert t[..|t| - LineLen()] == text && t[|t| - LineLen()..] == line;
      assert r[..|r| - 1] == regs && r[|r| - 1] == reg;
    }

    lemma {:induction false} DumpsJoin(s: string, a: seq<int>, t: string, b: seq<int>, calls: seq<Call>)
      requires IsDump(s, a, calls) && IsDump(t, b, calls)
      ensures IsDump(s + t, a + b, calls)
    {
      hide LineLen;
      hide IsLine;
      hide IsDump;
      if b == [] {
        NoLines(t, calls);
        assert s + t == s && a + b == a;
      } else {
        var l := LastLine(t, b, calls);
        var m := |b| - 1;
        DumpsJoin(s, a, t[..l], b[..m], calls);
        DumpSnoc(s + t[..l], t[l..], a + b[..m], b[m], calls);
        JoinTail(s, t, l);
        JoinTail(a, b, m);
        assert b[m..] == [b[m]];
      }
    }

    lemma NoLines(t: string, calls: seq<Call>)
      requires IsDump(t, [], calls)
      ensures t == ""
    {
    }

    /** A dump ends with the line of its last register. */
    lemma LastLine(t: string, regs: seq<int>, calls: seq<Call>) returns (l: nat)
      requires IsDump(t, regs, calls) && regs != []
      ensures l <= |t| && |t[l..]| == LineLen()
      ensures IsLine(t[l..], regs[|regs| - 1], calls) && IsDump(t[..l], regs[..|regs| - 1], calls)
    {
      hide LineLen;
      hide IsLine;
      l := |t| - LineLen();
    }

    lemma {:induction false} PosSum(a: nat, b: nat)
      ensures Pos(a) + Pos(b) == Pos(a + b)
    {
      if b > 0 { PosSum(a, b - 1); }
    }

    lemma AlignedStart(k: nat)
      requires stride > 0 && k <= |Regs()|
      ensures FirstLine(Pos(k)) == k
    {
      PosMonotone(k, k + 1);
      CountLines(Pos(k), k);
    }

    lemma RoomForOne(count: nat)
      requires bufLimit >= LineLen() && count >= LineLen()
      ensures LineNo(if count > bufLimit then bufLimit else count) >= 1
    {
      assert Pos(1) == Pos(0) + LineLen() == LineLen();
      CountLines(if count > bufLimit then bufLimit else count, 1);
    }

    /** A read from the start of line k hands out the next lines, at least one unless none is left. */
    lemma OneRead(k: nat, call: Call) returns (n: nat)
      requires Valid() && k <= |Regs()| && call.count >= LineLen() && Fit(call.value)
      ensures n == LinesServed(Pos(k), call.count) && k + n <= |Regs()| && (k < |Regs()| ==> n > 0)
      ensures IsDump(ReadText(Pos(k), call), Regs()[k..k + n], [call]) && |ReadText(Pos(k), call)| == Pos(n)
      ensures Pos(k) + |ReadText(Pos(k), call)| == Pos(k + n)
    {
      hide LineLen;
      hide From;
      hide IsDump;
      hide Pos;
      hide LineNo;
      hide FirstLine;
      hide Text;
      FromAscending(0);
      AlignedStart(k);
      RoomForOne(call.count);
      n := LinesServed(Pos(k), call.count);
      TextIsDump(Regs()[k..k + n], call);
      PosSum(k, n);
    }

    /** Reading from the start of line k until a read returns nothing, with any read sizes of at least
        one line, gives one line for each remaining printable register, in ascending order, none
        skipped and none repeated. */
    lemma {:induction false} SessionDumps(calls: seq<Call>, k: nat)
      requires Valid() && k <= |Regs()| && EndsEmpty(calls, Pos(k))
      requires forall c :: c in calls ==> c.count >= LineLen() && Fit(c.value)
      ensures IsDump(Session(calls, Pos(k)), Regs()[k..], calls)
      decreases |calls|
    {
      hide LineLen;
      hide Regs;
      hide LinesServed;
      hide ReadText;
      hide IsDump;
      hide Fit;
      var t := ReadText(Pos(k), calls[0]);
      var n := OneRead(k, calls[0]);
      MoreCalls(t, Regs()[k..k + n], [calls[0]], calls);
      if t != "" {
        SessionDumps(calls[1..], k + n);
        MoreCalls(Session(calls[1..], Pos(k + n)), Regs()[k + n..], calls[1..], calls);
        DumpsJoin(t, Regs()[k..k + n], Session(calls[1..], Pos(k + n)), Regs()[k + n..], calls);
        assert Regs()[k..k + n] + Regs()[k + n..] == Regs()[k..];
      } else {
        PosMonotone(0, n);
        assert Regs()[k..k + n] == Regs()[k..];
        assert t + Session(calls[1..], Pos(k)) == t;
      }
    }

    /** Reading never goes on for ever: one more read than there are registers left reaches the end. */
    lemma {:induction false} SessionEnds(calls: seq<Call>, k: nat) returns (m: nat)
      requires Valid() && k <= |Regs()| && |calls| > |Regs()| - k
      requires forall c :: c in calls ==> c.count >= LineLen() && Fit(c.value)
      ensures m <= |calls| && EndsEmpty(calls[..m], Pos(k))
      decreases |calls|
    {
      hide LineLen;
      hide Regs;
      hide LinesServed;
      hide ReadText;
      hide IsDump;
      var n := OneRead(k, calls[0]);
      if ReadText(Pos(k), calls[0]) == "" {
        m := 1;
      } else {
        m := SessionEnds(calls[1..], k + n);
        m := m + 1;
        assert calls[..m][1..] == calls[1..][..m - 1];
      }
    }

    /** The whole file, read from its beginning: one line for each printable register at a multiple of the
        stride, in ascending order. */
    lemma WholeDump(calls: seq<Call>)
      requires Valid() && EndsEmpty(calls, 0) && forall c :: c in calls ==> c.count >= LineLen() && Fit(c.value)
      ensures IsDump(Session(calls, 0), Regs(), calls)
      ensures forall r :: r in Regs() <==> printable(r) && r % stride == 0
      ensures forall i, j :: 0 <= i < j < |Regs()| ==> Regs()[i] < Regs()[j]
    {
      SessionDumps(calls, 0);
      assert Regs()[0..] == Regs();
      forall r
        ensures r in Regs() <==> printable(r) && r % stride == 0
      {
        FromFindsAll(0, r);
      }
      FromAscending(0);
      Ordered(Regs(), stride);
    }
  }

  lemma JoinTail<T>(s: seq<T>, t: seq<T>, l: nat)
    requires l <= |t|
    ensures s + t == s + t[..l] + t[l..]
  {
    assert t == t[..l] + t[l..];
  }

  /** Copies the text and its terminating NUL. */
  method Snprintf(buf: array<char>, pos: nat, text: string)
    requires pos + |text| < buf.Length
    modifies buf
    ensures buf[..pos + |text|] == old(buf[..pos]) + text
  {
    for k := 0 to |text|
      invariant buf[..pos + k] == old(buf[..pos]) + text[..k]
    {
      buf[pos + k] := text[k];
      assert buf[..pos + k + 1] == buf[..pos + k] + [text[k]];
      assert text[..k + 1] == text[..k] + [text[k]];
    }
    assert text[..|text|] == text;
    buf[pos + |text|] := '\0';
    assert buf[..pos + |text|] == old(buf[..pos]) + text;
  }

  method Memset(buf: array<char>, pos: nat, c: char, n: nat)
    requires pos + n <= buf.Length
    modifies buf
    ensures buf[..pos + n] == old(buf[..pos]) + Fill(c, n)
  {
    for k := 0 to n
      invariant buf[..pos + k] == old(buf[..pos]) + Fill(c, k)
    {
      buf[pos + k] := c;
      assert buf[..pos + k + 1] == buf[..pos + k] + [c];
    }
  }

  lemma NextMultiple(i: nat, step: nat, r: int)
    requires step > 0 && i % step == 0
    ensures (i + step) % step == 0
    ensures r > i && r % step == 0 ==> r >= i + step
  {
    var k := i / step;
    assert i == k * step;
    assert i + step == (k + 1) * step;
    WholeMultiple(k + 1, step);
    if r > i && r % step == 0 {
      var m := r / step;
      assert r == m * step;
      if m <= k { Monotone(m, k, step); }
      Monotone(k + 1, m, step);
    }
  }

  lemma WholeMultiple(k: nat, step: nat)
    requires step > 0
    ensures k * step % step == 0
  {
    DivUnique(k * step, step, k);
    assert k * step == k * step / step * step + k * step % step;
  }

  function DivNat(v: nat, d: nat): nat
    requires d > 0
  {
    v / d
  }

  lemma DivBounds(v: nat, d: nat)
    requires d > 0
    ensures v / d * d <= v < (v / d + 1) * d
  {
    assert v == v / d * d + v % d;
    assert (v / d + 1) * d == v / d * d + d;
  }

  lemma InRunArith(from: nat, a: nat, b: nat, l: nat, t: nat)
    requires l > 0 && a * l <= from < b * l && t == (from - a * l) / l
    ensures a + t < b && from / l == a + t && a * l + t * l == (a + t) * l
  {
    var f := from - a * l;
    assert t * l <= f < t * l + l;
    assert (a + t) * l == a * l + t * l;
    assert (a + t) * l <= from < (a + t) * l + l;
    DivUnique(from, l, a + t);
    if a + t >= b { Monotone(b, a + t, l); }
  }

  lemma {:induction false} OrderedFrom(regs: seq<int>, step: nat, a: nat, b: nat)
    requires step > 0 && a < b < |regs| && forall j :: 0 < j < |regs| ==> regs[j] >= regs[j - 1] + step
    ensures regs[a] + step <= regs[b]
  {
    if a + 1 < b { OrderedFrom(regs, step, a, b - 1); }
  }

  lemma Ordered(regs: seq<int>, step: nat)
    requires step > 0 && forall j :: 0 < j < |regs| ==> regs[j] >= regs[j - 1] + step
    ensures forall a, b :: 0 <= a < b < |regs| ==> regs[a] + step <= regs[b]
  {
    forall a, b | 0 <= a < b < |regs|
      ensures regs[a] + step <= regs[b]
    {
      OrderedFrom(regs, step, a, b);
    }
  }
}
