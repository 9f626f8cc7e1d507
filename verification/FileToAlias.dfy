/** The USB device-version compiler of scripts/mod/file2alias.c: a bcdDevice interval becomes a few
    digit patterns, and each pattern becomes shell-glob text in a MODULE_ALIAS line. */
module FileToAlias {
  import opened AliasGlob
  import opened Arithmetic
  import opened Common

  const U32: int := 0x1_0000_0000
  const U64: int := 0x1_0000_0000_0000_0000

  /** One emitted tuple: `ndigits` leading hex digits equal to `prefix`, then one digit in lo..hi,
      then anything. A prefix of no digits is not printed, so it constrains nothing. */
  datatype Pattern = Pattern(prefix: nat, ndigits: nat, lo: nat, hi: nat)

  /** Drop the w low hex digits. */
  function Shr(x: nat, w: nat): nat {
    if w == 0 then x else Shr(x, w - 1) / 16
  }

  /** Every hex digit of x is at most max. */
  predicate Digits(x: nat, max: nat) {
    x == 0 || (x % 16 <= max && Digits(x / 16, max))
  }

  /** A 16-bit device version that is a number in the entry's own base. */
  predicate Fits(x: nat, max: nat) {
    x < 0x10000 && Digits(x, max)
  }

  predicate Matches(p: Pattern, x: nat) {
    p.ndigits <= 3 && (p.ndigits > 0 ==> Shr(x, 4 - p.ndigits) == p.prefix) &&
    p.lo <= Shr(x, 3 - p.ndigits) % 16 <= p.hi
  }

  ghost predicate WellFormed(out: seq<Pattern>) {
    forall i :: 0 <= i < |out| ==>
      out[i].ndigits <= 3 && out[i].lo <= 15 && out[i].hi <= 15 &&
      (out[i].ndigits > 0 ==> Shr(out[i].prefix, out[i].ndigits) == 0)
  }

  ghost predicate Covered(out: seq<Pattern>, x: nat) {
    exists i :: 0 <= i < |out| && Matches(out[i], x)
  }

  predicate InRange(x: nat, lo: nat, hi: Option<nat>) {
    lo <= x && (hi.Some? ==> x <= hi.value)
  }

  /** The tuples accept exactly the versions between the bounds. */
  ghost predicate Exact(out: seq<Pattern>, lo: nat, hi: Option<nat>, max: nat) {
    forall x: nat :: Fits(x, max) ==> (Covered(out, x) <==> InRange(x, lo, hi))
  }

  ghost predicate Disjoint(out: seq<Pattern>, max: nat) {
    forall x: nat, i, j :: Fits(x, max) && 0 <= i < j < |out| ==> !(Matches(out[i], x) && Matches(out[j], x))
  }

  /** The upper bound the driver table gives, or all ones when the entry has no upper bound. */
  function DevHi(hi: Option<nat>): nat {
    if hi.Some? then hi.value else 0xFFFF_FFFF
  }

  /** Whether the entry is read as decimal digits. */
  predicate IsDecimal(lo: nat, devhi: nat) {
    Digits(lo, 9) && Digits(if devhi > 0x9999 then 0x9999 else devhi, 9)
  }

  /** The exact condition under which the emitted tuples mean the interval. With an upper bound the
      only trouble is a decimal entry whose bound lies above 0x9999: at its lowest digit below 9 the
      decrement forces the bound into decimal, so the top block is lost unless `lo` lies inside it.
      Without an upper bound, rounding `lo` up must not carry out of the top digit. */
  predicate Representable(lo: nat, hi: Option<nat>, max: nat) {
    match hi
    case Some(h) =>
      max > 9 || h <= 0x9999 || (
        if h % 16 < 9 then lo > 0x9990
        else if h / 16 % 16 < 9 then lo > 0x9900
        else if h / 256 % 16 < 9 then lo > 0x9000
        else true)
    case None => lo <= max * 0x1000
  }

  /** p with every hex digit above 9 taken as 9. */
  function Forced(p: nat): nat {
    if p == 0 then 0 else 16 * Forced(p / 16) + Min9(p % 16)
  }

  /** How many low digits of an upper bound end with its lowest digit below 9. */
  function GapWidth(h: nat): nat {
    if h % 16 < 9 then 1 else if h / 16 % 16 < 9 then 2 else 3
  }

  /** What is left of a bounded interval that is not representable: the versions whose leading digits lie below
      those of the bound, forced into decimal, and the rest of the block `lo` lies in when it is not its start. */
  predicate Kept(lo: nat, h: nat, x: nat) {
    var g := GapWidth(h);
    lo <= x && (Shr(x, g) < Forced(Shr(h, g)) || Shl(Shr(x, g), g) < lo)
  }

  /** What tuples accept that do not mean their interval: without an upper bound, everything. */
  ghost predicate Remains(out: seq<Pattern>, lo: nat, hi: Option<nat>, max: nat) {
    forall x: nat :: Fits(x, max) ==> (Covered(out, x) <==> hi.None? || Kept(lo, hi.value, x))
  }

  // ---------------------------------------------------------------- decimal arithmetic on hex digits

  /** c times ten to the j, as the inner loops compute it. */
  function TimesTen(c: nat, j: nat): nat {
    if j == 0 then c else 10 * TimesTen(c, j - 1)
  }

  lemma {:induction false} TimesTenPositive(c: nat, j: nat)
    requires c > 0
    ensures TimesTen(c, j) > 0
  {
    if j > 0 { TimesTenPositive(c, j - 1); }
  }

  /** c shifted up by j hex digits. */
  function Shl(c: nat, j: nat): nat {
    if j == 0 then c else 16 * Shl(c, j - 1)
  }

  function Min9(c: nat): nat {
    if c > 9 then 9 else c
  }

  /** The number whose decimal digits are the hex digits of x. */
  function Dec(x: nat): nat {
    if x == 0 then 0 else 10 * Dec(x / 16) + x % 16
  }

  /** The number in x whose hex digits are the decimal digits of v. */
  function Bcd(v: nat): nat {
    if v == 0 then 0 else 16 * Bcd(v / 10) + v % 10
  }

  /** The low `chars` hex digits of x read as decimal, every digit above 9 taken as 9. */
  function Clamped(x: nat, chars: nat): nat {
    if chars == 0 then 0
    else Clamped(x, chars - 1) + TimesTen(Min9(Shr(x, chars - 1) % 16), chars - 1)
  }

  /** v without its low i decimal digits. */
  function DropTen(v: nat, i: nat): nat {
    if i == 0 then v else DropTen(v / 10, i - 1)
  }

  /** The low n decimal digits of v laid out as hex digits. */
  function Layout(v: nat, n: nat): nat {
    if n == 0 then 0 else Layout(v, n - 1) + Shl(DropTen(v, n - 1) % 10, n - 1)
  }

  /** Dividing by 10^i, as the code does, drops i decimal digits. */
  lemma {:induction false} DivByPower(v: nat, i: nat)
    ensures TimesTen(1, i) > 0 && v / TimesTen(1, i) == DropTen(v, i)
  {
    TimesTenPositive(1, i);
    if i > 0 {
      DivByPower(v / 10, i - 1);
      TenTimes(v, TimesTen(1, i - 1));
    }
  }

  /** Dividing by ten and then by t divides by ten times t. */
  lemma TenTimes(v: nat, t: nat)
    requires t > 0
    ensures v / (10 * t) == v / 10 / t
  {
    var n, q := v / 10, v / 10 / t;
    assert v == 10 * n + v % 10;
    assert n == q * t + n % t;
    assert q * (10 * t) == 10 * (q * t);
    DivUnique(v, 10 * t, q);
  }

  lemma {:induction false} DecMonotone(x: nat, y: nat)
    requires Digits(x, 9) && Digits(y, 9)
    ensures (x < y <==> Dec(x) < Dec(y)) && (y < x <==> Dec(y) < Dec(x))
  {
    if x != 0 && y != 0 {
      DecMonotone(x / 16, y / 16);
    } else {
      DecPositive(x);
      DecPositive(y);
    }
  }

  lemma {:induction false} DecPositive(x: nat)
    ensures x > 0 && Digits(x, 9) ==> Dec(x) > 0
  {
    if x > 0 && x % 16 == 0 { DecPositive(x / 16); }
  }

  lemma {:induction false} BcdInverse(v: nat)
    ensures Digits(Bcd(v), 9) && Dec(Bcd(v)) == v
  {
    if v > 0 {
      BcdInverse(v / 10);
      assert Bcd(v) % 16 == v % 10 && Bcd(v) / 16 == Bcd(v / 10);
    }
  }

  lemma {:induction false} ShrLow(x: nat, w: nat)
    ensures Shr(x, w + 1) == Shr(x / 16, w)
  {
    if w > 0 { ShrLow(x, w - 1); }
  }

  lemma {:induction false} ClampedLow(x: nat, n: nat)
    requires n > 0
    ensures Clamped(x, n) == Min9(x % 16) + 10 * Clamped(x / 16, n - 1)
  {
    if n > 1 {
      ClampedLow(x, n - 1);
      ShrLow(x, n - 2);
    }
  }

  /** Enough digits: the clamped reading of a decimal number is its value. */
  lemma {:induction false} ClampedIsDec(x: nat, n: nat)
    requires Digits(x, 9) && Shr(x, n) == 0
    ensures Clamped(x, n) == Dec(x)
  {
    if n > 0 {
      ClampedLow(x, n);
      ShrLow(x, n - 1);
      ClampedIsDec(x / 16, n - 1);
    }
  }

  /** The clamped reading forces every digit into decimal. */
  lemma {:induction false} ForcedReads(p: nat, n: nat)
    ensures Clamped(Forced(p), n) == Clamped(p, n) && Digits(Forced(p), 9)
    ensures Shr(p, n) == 0 ==> Shr(Forced(p), n) == 0
    ensures p > 0 ==> Forced(p) > 0
    decreases n, p
  {
    if p > 0 {
      assert Forced(p) % 16 == Min9(p % 16) && Forced(p) / 16 == Forced(p / 16);
      ForcedReads(p / 16, if n > 0 then n - 1 else 0);
      if n > 0 {
        ClampedLow(p, n);
        ClampedLow(Forced(p), n);
        ShrLow(p, n - 1);
        ShrLow(Forced(p), n - 1);
      }
    } else if n > 0 {
      assert Forced(p) == p;
    }
  }

  lemma {:induction false} LayoutLow(v: nat, n: nat)
    requires n > 0
    ensures Layout(v, n) == v % 10 + 16 * Layout(v / 10, n - 1)
  {
    if n > 1 { LayoutLow(v, n - 1); }
  }

  /** Enough digits: the digit loop lays a number out as its decimal digits. */
  lemma {:induction false} LayoutIsBcd(v: nat, n: nat)
    requires DropTen(v, n) == 0
    ensures Layout(v, n) == Bcd(v) && Shr(Bcd(v), n) == 0
  {
    if n > 0 {
      LayoutLow(v, n);
      LayoutIsBcd(v / 10, n - 1);
      ShrLow(Bcd(v), n - 1);
      assert Bcd(v) / 16 == Bcd(v / 10);
    }
  }

  lemma Shr4(x: nat)
    ensures Shr(x, 0) == x && Shr(x, 1) == x / 16 && Shr(x, 2) == x / 256 && Shr(x, 3) == x / 4096
    ensures Shr(x, 4) == x / 65536
  {
  }

  /** What stepping the prefix by one leaves behind. */
  function Stepped(bcd: nat, inc: int, max: nat, chars: nat): nat {
    if max > 9 then (bcd + inc) % U32 else Layout((Clamped(bcd, chars) + inc) % U64, chars)
  }

  /** Adds or subtracts one in place and hands back the previous value; decimal unless max > 9. The
      accumulator is 64 bits wide, so stepping down from zero wraps to 2^64 - 1. */
  method IncBcd(bcd: nat, inc: int, max: nat, chars: nat) returns (prev: nat, next: nat)
    requires bcd < U32 && (inc == 1 || inc == -1) && chars <= 8
    ensures prev == bcd
    ensures next == Stepped(bcd, inc, max, chars)
  {
    prev := bcd;
    if max > 9 {
      next := (bcd + inc) % U32;
      return;
    }
    var dec: nat := 0;
    for i := 0 to chars
      invariant dec == Clamped(bcd, i)
    {
      var c := Shr(bcd, i) % 16;
      if c > 9 { c := 9; }
      ghost var digit := c;
      for j := 0 to i
        invariant c == TimesTen(digit, j)
      {
        c := c * 10;
      }
      dec := dec + c;
    }
    dec := (dec + inc) % U64;
    next := 0;
    for i := 0 to chars
      invariant next == Layout(dec, i)
    {
      var c: nat := 1;
      for j := 0 to i
        invariant c == TimesTen(1, j)
      {
        c := c * 10;
      }
      DivByPower(dec, i);
      c := dec / c % 10;
      next := next + Shl(c, i);
    }
  }

  lemma DropFour(v: nat)
    requires v < 10000
    ensures DropTen(v, 4) == 0
  {
    var a := v / 10;
    var b := a / 10;
    var c := b / 10;
    assert a < 1000 && b < 100 && c < 10;
    assert DropTen(c, 1) == 0;
    assert DropTen(b, 2) == 0;
    assert DropTen(a, 3) == 0;
  }

  lemma StepIsBcd(p: nat, inc: int, chars: nat)
    requires chars == 4 && p < 0x10000 && Digits(p, 9) && 0 <= Dec(p) + inc < 10000
    ensures Stepped(p, inc, 9, chars) == Bcd(Dec(p) + inc) < 0x10000
  {
    hide Layout; hide Clamped; hide Bcd; hide Dec; hide Digits; hide DropTen; hide Shr;
    Shr4(p);
    ClampedIsDec(p, chars);
    var v := Dec(p) + inc;
    DropFour(v);
    LayoutIsBcd(v, chars);
    assert v % U64 == v;
    Shr4(Bcd(v));
  }

  lemma NeighbourOrder(p: nat, q: nat, inc: int, y: nat)
    requires Digits(p, 9) && Digits(q, 9) && Digits(y, 9) && Dec(q) == Dec(p) + inc
    ensures inc == 1 ==> (y < q <==> y <= p)
    ensures inc == -1 ==> (y > q <==> y >= p)
  {
    DecMonotone(y, q);
    DecMonotone(y, p);
  }

  /** IncBcd is the decimal successor and predecessor wherever the result has four digits, and a
      decimal prefix has no decimal number between it and its neighbour. */
  lemma NextDecimal(p: nat, inc: int)
    requires p < 0x10000 && Digits(p, 9) && (inc == 1 || inc == -1)
    requires 0 <= Dec(p) + inc < 10000
    ensures var q := Stepped(p, inc, 9, 4);
      Fits(q, 9) && Dec(q) == Dec(p) + inc &&
      forall y: nat :: Digits(y, 9) ==> if inc == 1 then y < q <==> y <= p else y > q <==> y >= p
  {
    hide Stepped; hide Dec; hide Digits;
    NextOfDigits(p, inc, 4);
  }

  lemma NextOfDigits(p: nat, inc: int, chars: nat)
    requires chars == 4 && p < 0x10000 && Digits(p, 9) && (inc == 1 || inc == -1)
    requires 0 <= Dec(p) + inc < 10000
    ensures var q := Stepped(p, inc, 9, chars);
      Fits(q, 9) && Dec(q) == Dec(p) + inc &&
      forall y: nat :: Digits(y, 9) ==> if inc == 1 then y < q <==> y <= p else y > q <==> y >= p
  {
    hide Stepped; hide Bcd; hide Dec; hide Digits;
    StepIsBcd(p, inc, chars);
    BcdInverse(Dec(p) + inc);
    var q := Bcd(Dec(p) + inc);
    forall y: nat | Digits(y, 9)
      ensures if inc == 1 then y < q <==> y <= p else y > q <==> y >= p
    {
      NeighbourOrder(p, q, inc, y);
    }
  }

  // ---------------------------------------------------------------- the interval loop

  /** The mode the digit loop settles on. */
  method FindMode(devlo: nat, devhi: nat) returns (max: nat)
    requires devlo < 0x10000
    ensures max == if IsDecimal(devlo, devhi) then 9 else 15
  {
    var h := if devhi > 0x9999 then 0x9999 else devhi;
    var ndigits := 0;
    Shr4(devlo);
    Shr4(h);
    while ndigits < 4
      invariant 0 <= ndigits <= 4
      invariant Digits(devlo, 9) <==> Digits(Shr(devlo, ndigits), 9)
      invariant Digits(h, 9) <==> Digits(Shr(h, ndigits), 9)
    {
      var clo, chi := Shr(devlo, ndigits) % 16, Shr(h, ndigits) % 16;
      if clo > 9 || chi > 9 {
        return 15;
      }
      ndigits := ndigits + 1;
    }
    return 9;
  }

  lemma {:induction false} DigitsShr(x: nat, max: nat, w: nat)
    requires Digits(x, max)
    ensures Digits(Shr(x, w), max)
  {
    if w > 0 { DigitsShr(x, max, w - 1); }
  }

  lemma {:induction false} ShrMonotone(x: nat, y: nat, w: nat)
    requires x <= y
    ensures Shr(x, w) <= Shr(y, w)
  {
    if w > 0 { ShrMonotone(x, y, w - 1); }
  }

  /** Largest number of n digits in the entry's base. */
  function Top(max: nat, n: nat): nat {
    if n == 0 then 0 else 16 * Top(max, n - 1) + max
  }

  lemma {:induction false} TopIsLargest(x: nat, max: nat, n: nat)
    requires Digits(x, max) && Shr(x, n) == 0
    ensures x <= Top(max, n)
  {
    if n > 0 {
      ShrLow(x, n - 1);
      TopIsLargest(x / 16, max, n - 1);
    }
  }

  predicate Mode(max: nat) { max == 9 || max == 15 }

  lemma TopAndOne()
    ensures Top(9, 4) == 0x9999 && Top(9, 3) == 0x999 && Top(9, 2) == 0x99 && Top(9, 1) == 9 && Top(9, 0) == 0
    ensures Top(15, 4) == 0xFFFF && Top(15, 3) == 0xFFF && Top(15, 2) == 0xFF && Top(15, 1) == 15 && Top(15, 0) == 0
    ensures Shl(1, 4) == 0x10000 && Shl(1, 3) == 0x1000 && Shl(1, 2) == 0x100 && Shl(1, 1) == 0x10 && Shl(1, 0) == 1
  {
    assert Top(9, 1) == 9 && Top(15, 1) == 15 && Shl(1, 1) == 16;
    assert Top(9, 2) == 0x99 && Top(15, 2) == 0xFF && Shl(1, 2) == 256;
    assert Top(9, 3) == 0x999 && Top(15, 3) == 0xFFF && Shl(1, 3) == 4096;
  }

  lemma {:induction false} TopDigits(max: nat, n: nat)
    requires Mode(max)
    ensures Digits(Top(max, n), max) && Shr(Top(max, n), n) == 0 && Digits(Shl(1, n), max)
  {
    if n > 0 {
      TopDigits(max, n - 1);
      TopShr(max, n);
      assert Top(max, n) % 16 == max && Top(max, n) / 16 == Top(max, n - 1);
      assert Shl(1, n) % 16 == 0 && Shl(1, n) / 16 == Shl(1, n - 1);
      hide Top; hide Shl; hide Shr;
    }
  }

  lemma TopShr(max: nat, n: nat)
    requires Mode(max) && n > 0 && Shr(Top(max, n - 1), n - 1) == 0
    ensures Shr(Top(max, n), n) == 0
  {
    hide Shr;
    assert Top(max, n) / 16 == Top(max, n - 1);
    ShrLow(Top(max, n), n - 1);
  }

  /** A number too large for n digits is at least 16^n. */
  lemma {:induction false} BeyondTop(x: nat, n: nat)
    ensures Shr(x, n) > 0 <==> x >= Shl(1, n)
  {
    if n > 0 {
      ShrLow(x, n - 1);
      BeyondTop(x / 16, n - 1);
    }
  }

  lemma Dec999()
    ensures Dec(0x999) == 999 && Digits(0x999, 9)
  {
    assert Dec(9) == 9 && Dec(0x99) == 99;
    assert Digits(9, 9) && Digits(0x99, 9);
  }

  lemma TopBound(max: nat, n: nat)
    requires Mode(max) && n <= 4
    ensures Top(max, n) < Shl(1, n) <= 0x10000
    ensures n <= 3 ==> Top(max, n) <= 0xFFF && (max == 9 ==> Top(max, n) <= 0x999)
  {
    TopAndOne();
    assert n == 0 || n == 1 || n == 2 || n == 3 || n == 4;
  }

  lemma NextHex(p: nat, inc: int, chars: nat)
    requires p <= 0xFFF && (inc == 1 || (inc == -1 && p > 0))
    ensures var q := Stepped(p, inc, 15, chars);
      q == p + inc && Digits(q, 15)
  {
    HexDigits(p + inc);
  }

  /** Stepping up a prefix of n digits gives the next number of the same base, at most 1 followed by
      n zeros. */
  lemma NextUp(p: nat, max: nat, n: nat, chars: nat)
    requires Mode(max) && n <= 3 && chars == 4 && Digits(p, max) && p <= Top(max, n)
    ensures var q := Stepped(p, 1, max, chars);
      Digits(q, max) && (q <= Top(max, n) || q == Shl(1, n)) &&
      forall y: nat :: Digits(y, max) ==> (y < q <==> y <= p)
  {
    TopBound(max, n);
    TopDigits(max, n);
    var q := Stepped(p, 1, max, chars);
    if max == 9 { NextDecimalSmall(p, 1, chars); } else { NextHex(p, 1, chars); }
    AtMostOneMore(p, q, max, n);
  }

  lemma NextDecimalSmall(p: nat, inc: int, chars: nat)
    requires chars == 4 && p <= 0x999 && Digits(p, 9) && (inc == 1 || (inc == -1 && p > 0))
    ensures var q := Stepped(p, inc, 9, chars);
      Digits(q, 9) && forall y: nat :: Digits(y, 9) ==> if inc == 1 then y < q <==> y <= p else y > q <==> y >= p
  {
    Dec999();
    DecMonotone(p, 0x999);
    DecPositive(p);
    NextOfDigits(p, inc, chars);
  }

  lemma AtMostOneMore(p: nat, q: nat, max: nat, n: nat)
    requires Digits(q, max) && p <= Top(max, n) < Shl(1, n) && Digits(Shl(1, n), max)
    requires forall y: nat :: Digits(y, max) ==> (y < q <==> y <= p)
    ensures q <= Top(max, n) || q == Shl(1, n)
  {
    if q > Top(max, n) {
      if Shr(q, n) == 0 { TopIsLargest(q, max, n); }
      BeyondTop(q, n);
    }
  }

  lemma {:induction false} HexDigits(x: nat)
    ensures Digits(x, 15)
  {
    if x > 0 { HexDigits(x / 16); }
  }

  lemma NextDown(p: nat, max: nat, n: nat, chars: nat)
    requires Mode(max) && n <= 3 && chars == 4 && Digits(p, max) && 0 < p <= Top(max, n)
    ensures var q := Stepped(p, -1, max, chars);
      Digits(q, max) && q < p &&
      forall y: nat :: Digits(y, max) ==> (y > q <==> y >= p)
  {
    TopBound(max, n);
    if max == 9 { NextDecimalSmall(p, -1, chars); } else { NextHex(p, -1, chars); }
  }

  // ---------------------------------------------------------------- what each pass of the loop keeps

  /** `devlo` is `lo` divided by 16^w and rounded up in the entry's base. */
  ghost predicate Rounded(lo: nat, max: nat, w: nat, devlo: nat)
    requires w <= 4
  {
    Digits(devlo, max) && (devlo <= Top(max, 4 - w) || devlo == Shl(1, 4 - w)) &&
    forall y: nat :: Digits(y, max) ==> (devlo > y <==> lo > Shl(y, w))
  }

  ghost predicate Bounded(max: nat, w: nat, devhi: nat)
    requires w <= 4
  {
    Digits(devhi, max) && devhi <= Top(max, 4 - w)
  }

  /** No digit of the bound has stopped the walk yet, and the bound lies above every number. */
  ghost predicate Above(hi: Option<nat>, max: nat, w: nat, devhi: nat)
    requires w <= 4
  {
    devhi > Top(max, 4 - w) && devhi == Shr(DevHi(hi), w) &&
    (forall k :: 0 <= k < w ==> Shr(DevHi(hi), k) % 16 >= max) &&
    (hi.Some? ==> max == 9 && 0x9999 < hi.value < 0x10000)
  }

  predicate SafeHi(hi: Option<nat>, max: nat) {
    hi.Some? && (max > 9 || hi.value <= 0x9999 ||
      (hi.value % 16 >= 9 && hi.value / 16 % 16 >= 9 && hi.value / 256 % 16 >= 9))
  }

  /** x has been dealt with from below, respectively from above. */
  predicate Below(lo: nat, w: nat, devlo: nat, x: nat) { lo <= x && Shr(x, w) < devlo }

  predicate Beyond(hi: Option<nat>, w: nat, devhi: nat, x: nat) { Shr(x, w) > devhi && x <= DevHi(hi) }

  ghost predicate Tracking(out: seq<Pattern>, lo: nat, hi: Option<nat>, max: nat, w: nat, devlo: nat, devhi: nat)
    requires w <= 4
  {
    (forall x: nat :: Fits(x, max) ==>
      (Covered(out, x) <==> Below(lo, w, devlo, x) || Beyond(hi, w, devhi, x)) &&
      (Shr(x, w) <= devhi ==> x <= DevHi(hi)) &&
      (Below(lo, w, devlo, x) ==> x <= DevHi(hi)) && (Beyond(hi, w, devhi, x) ==> lo <= x)) &&
    (Above(hi, max, w, devhi) || (Bounded(max, w, devhi) && SafeHi(hi, max))) &&
    (hi.Some? ==> devhi < Shl(1, 4 - w))
  }

  /** The tuples accept what is kept outside the remaining bounds, and all between the bounds is kept. */
  ghost predicate Cut(out: seq<Pattern>, lo: nat, h: nat, max: nat, w: nat, devlo: nat, devhi: nat) {
    forall x: nat :: Fits(x, max) ==>
      (Covered(out, x) <==> Kept(lo, h, x) && (Shr(x, w) < devlo || Shr(x, w) > devhi)) &&
      (devlo <= Shr(x, w) <= devhi ==> Kept(lo, h, x))
  }

  /** The block at the top has been dropped and can no longer be covered. */
  ghost predicate Lost(out: seq<Pattern>, lo: nat, hi: Option<nat>, max: nat, w: nat, devlo: nat, devhi: nat)
    requires w <= 4
  {
    max == 9 && hi.Some? && hi.value > 0x9999 && lo <= 0x9999 && !Representable(lo, hi, max) &&
    !Covered(out, 0x9999) && devlo <= Top(max, 4 - w) && Bounded(max, w, devhi) && devhi < Top(max, 4 - w) &&
    Cut(out, lo, hi.value, max, w, devlo, devhi) &&
    forall x: nat :: Fits(x, max) && Covered(out, x) ==> Shr(x, w) < devlo || Shr(x, w) > devhi
  }

  lemma ShlSixteen(y: nat, w: nat)
    ensures Shl(16 * y, w) == Shl(y, w + 1)
  {
    if w > 0 { ShlSixteen(y, w - 1); }
  }

  lemma RoundedStep(lo: nat, max: nat, w: nat, devlo: nat, next: nat, y: nat)
    requires w <= 3 && Rounded(lo, max, w, devlo) && Digits(y, max)
    requires if devlo % 16 > 0 then y < next <==> y <= devlo / 16 else next == devlo / 16
    ensures next > y <==> lo > Shl(y, w + 1)
  {
    ShlSixteen(y, w);
    assert Digits(16 * y, max);
    assert devlo > 16 * y <==> lo > Shl(16 * y, w);
  }

  lemma LowSplit(max: nat, w: nat, devlo: nat, next: nat, x: nat)
    requires Digits(x, max)
    requires forall y: nat :: Digits(y, max) ==>
      if devlo % 16 > 0 then y < next <==> y <= devlo / 16 else next == devlo / 16
    ensures (Shr(x, w) < devlo ||
       (devlo % 16 > 0 && Shr(x, w + 1) == devlo / 16 && devlo % 16 <= Shr(x, w) % 16 <= max)) <==>
      Shr(x, w + 1) < next
  {
    DigitsShr(x, max, w);
    DigitsShr(x, max, w + 1);
  }

  /** The next prefix: a number of one digit less, and no number between it and the digits before. */
  lemma NextPrefix(max: nat, w: nat, devlo: nat, chars: nat) returns (next: nat)
    requires Mode(max) && w <= 3 && chars == 4
    requires Digits(devlo, max) && (devlo <= Top(max, 4 - w) || devlo == Shl(1, 4 - w))
    ensures next == if devlo % 16 > 0 then Stepped(devlo / 16, 1, max, chars) else devlo / 16
    ensures Digits(next, max) && (next <= Top(max, 3 - w) || next == Shl(1, 3 - w))
    ensures forall y: nat :: Digits(y, max) ==>
      if devlo % 16 > 0 then y < next <==> y <= devlo / 16 else next == devlo / 16
  {
    hide Stepped;
    var p := devlo / 16;
    assert Digits(p, max);
    assert Shl(1, 4 - w) == 16 * Shl(1, 3 - w) && Top(max, 4 - w) == 16 * Top(max, 3 - w) + max;
    if devlo % 16 > 0 {
      NextUp(p, max, 3 - w, chars);
      next := Stepped(p, 1, max, chars);
    } else {
      next := p;
    }
  }

  /** Rounding up one more digit: what the low emission takes is what the rounding skips. */
  lemma RoundUp(lo: nat, max: nat, w: nat, devlo: nat, chars: nat) returns (next: nat)
    requires Mode(max) && w <= 3 && chars == 4 && Rounded(lo, max, w, devlo)
    ensures next == if devlo % 16 > 0 then Stepped(devlo / 16, 1, max, chars) else devlo / 16
    ensures Rounded(lo, max, w + 1, next)
    ensures forall x: nat :: Fits(x, max) ==>
      ((Shr(x, w) < devlo || (devlo % 16 > 0 && Shr(x, w + 1) == devlo / 16 && devlo % 16 <= Shr(x, w) % 16 <= max))
        <==> Shr(x, w + 1) < next)
  {
    hide Stepped; hide Shr; hide Shl; hide Top; hide Digits;
    next := NextPrefix(max, w, devlo, chars);
    forall y: nat | Digits(y, max)
      ensures next > y <==> lo > Shl(y, w + 1)
    {
      RoundedStep(lo, max, w, devlo, next, y);
    }
    forall x: nat | Fits(x, max)
      ensures (Shr(x, w) < devlo ||
         (devlo % 16 > 0 && Shr(x, w + 1) == devlo / 16 && devlo % 16 <= Shr(x, w) % 16 <= max)) <==>
        Shr(x, w + 1) < next
    {
      LowSplit(max, w, devlo, next, x);
    }
  }

  /** Rounding a proper bound down one more digit. */
  lemma RoundDown(max: nat, w: nat, devhi: nat, chars: nat) returns (next: nat)
    requires Mode(max) && w <= 3 && chars == 4 && Bounded(max, w, devhi) && devhi / 16 > 0
    ensures next == if devhi % 16 < max then Stepped(devhi / 16, -1, max, chars) else devhi / 16
    ensures Bounded(max, w + 1, next) && next <= devhi / 16 && (devhi % 16 < max ==> next < devhi / 16)
    ensures forall x: nat :: Fits(x, max) ==>
      ((Shr(x, w) > devhi || (devhi % 16 < max && Shr(x, w + 1) == devhi / 16 && Shr(x, w) % 16 <= devhi % 16))
        <==> Shr(x, w + 1) > next)
  {
    hide Stepped;
    var p, c := devhi / 16, devhi % 16;
    assert Digits(p, max);
    TopBound(max, 4 - w);
    assert Top(max, 4 - w) == 16 * Top(max, 3 - w) + max;
    if c < max {
      NextDown(p, max, 3 - w, chars);
      next := Stepped(p, -1, max, chars);
    } else {
      next := p;
    }
    forall x: nat | Fits(x, max)
      ensures (Shr(x, w) > devhi || (c < max && Shr(x, w + 1) == p && Shr(x, w) % 16 <= c)) <==> Shr(x, w + 1) > next
    {
      DigitsShr(x, max, w);
      assert Digits(Shr(x, w + 1), max);
    }
  }

  lemma FitsBelowTop(x: nat, max: nat, w: nat)
    requires Fits(x, max) && w <= 4
    ensures Shr(x, w) <= Top(max, 4 - w)
  {
    DigitsShr(x, max, w);
    ShrAdd(x, w, 4 - w);
    Shr4(x);
    TopIsLargest(Shr(x, w), max, 4 - w);
  }

  lemma {:induction false} ShrAdd(x: nat, a: nat, b: nat)
    ensures Shr(Shr(x, a), b) == Shr(x, a + b)
  {
    if b > 0 { ShrAdd(x, a, b - 1); }
  }

  lemma Push(out: seq<Pattern>, p: Pattern, x: nat)
    ensures Covered(out + [p], x) <==> Covered(out, x) || Matches(p, x)
  {
    var all := out + [p];
    assert all[|out|] == p;
    if Covered(out, x) {
      var i :| 0 <= i < |out| && Matches(out[i], x);
      assert all[i] == out[i];
    }
    if Covered(all, x) {
      var i :| 0 <= i < |all| && Matches(all[i], x);
      if i < |out| { assert all[i] == out[i]; }
    }
  }

  lemma PushDisjoint(out: seq<Pattern>, p: Pattern, max: nat)
    requires Disjoint(out, max)
    requires forall x: nat :: Fits(x, max) && Matches(p, x) ==> !Covered(out, x)
    ensures Disjoint(out + [p], max)
  {
    var all := out + [p];
    forall x: nat, i, j | Fits(x, max) && 0 <= i < j < |all|
      ensures !(Matches(all[i], x) && Matches(all[j], x))
    {
      assert all[i] == out[i];
      if j < |out| { assert all[j] == out[j]; }
    }
  }

  lemma {:induction false} ClampedBound(x: nat, n: nat, m: nat)
    requires Shr(x, n) == 0 && n <= m
    ensures Clamped(x, m) <= Dec(Top(9, n)) && (x > 0 ==> Clamped(x, m) > 0)
  {
    if m > 0 {
      ClampedLow(x, m);
      if n > 0 {
        ShrLow(x, n - 1);
        ClampedBound(x / 16, n - 1, m - 1);
        assert Top(9, n) / 16 == Top(9, n - 1) && Top(9, n) % 16 == 9;
      } else {
        ClampedBound(x / 16, 0, m - 1);
      }
    }
  }

  /** Stepping down from a prefix that is no decimal number forces it into decimal first. */
  lemma ForcedDown(phi: nat, n: nat, chars: nat)
    requires 1 <= n <= 3 && chars == 4 && Shr(phi, n) == 0 && phi > 0
    ensures var q := Stepped(phi, -1, 9, chars); Digits(q, 9) && q < Top(9, n)
  {
    hide Layout; hide Clamped; hide Bcd; hide Dec; hide Digits; hide DropTen; hide Shr; hide Top;
    ClampedBound(phi, n, chars);
    TopDigits(9, n);
    var v := Clamped(phi, chars) - 1;
    TopBound(9, n);
    Dec999();
    DecMonotone(Top(9, n), 0x999);
    assert v < 10000 && v % U64 == v;
    DropFour(v);
    LayoutIsBcd(v, chars);
    BcdInverse(v);
    DecMonotone(Bcd(v), Top(9, n));
  }

  /** With the bound above every number, one more digit that does not stop the walk. */
  lemma StillAbove(hi: Option<nat>, max: nat, w: nat, devhi: nat)
    requires Mode(max) && w <= 3 && Above(hi, max, w, devhi) && devhi % 16 >= max
    requires hi.Some? ==> devhi < Shl(1, 4 - w)
    ensures hi.Some? ==> devhi / 16 < Shl(1, 3 - w)
    ensures Above(hi, max, w + 1, devhi / 16) || (Bounded(max, w + 1, devhi / 16) && SafeHi(hi, max))
    ensures devhi / 16 >= Top(max, 3 - w)
  {
    hide Digits;
    assert Top(max, 4 - w) == 16 * Top(max, 3 - w) + max;
    assert Shl(1, 4 - w) == 16 * Shl(1, 3 - w);
    if devhi / 16 <= Top(max, 3 - w) {
      TopDigits(max, 3 - w);
      TopAndOne();
      if hi.None? {
        AllOnes(w + 1);
        assert false;
      }
      var h := hi.value;
      Shr4(h);
      assert devhi / 16 == Shr(h, w + 1) == Top(max, 3 - w);
      assert forall k :: 0 <= k <= w ==> Shr(h, k) % 16 >= 9;
      NinesAbove(h, w);
    }
  }

  lemma AllOnes(w: nat)
    requires w <= 4
    ensures Shr(0xFFFF_FFFF, w) >= 0xFFFF
  {
    var x := 0xFFFF_FFFF;
    Shr4(x);
    assert w == 0 || w == 1 || w == 2 || w == 3 || w == 4;
  }

  lemma NinesAbove(h: nat, w: nat)
    requires w <= 3 && Shr(h, w + 1) == Top(9, 3 - w)
    requires forall k :: 0 <= k <= w ==> Shr(h, k) % 16 >= 9
    ensures h % 16 >= 9 && h / 16 % 16 >= 9 && h / 256 % 16 >= 9
  {
    Shr4(h);
    assert Shr(h, 0) % 16 >= 9;
    if w >= 1 { assert Shr(h, 1) % 16 >= 9; }
    if w >= 2 { assert Shr(h, 2) % 16 >= 9; }
    if w == 0 { TopAndOne(); }
    if w == 1 { TopAndOne(); }
  }

  /** A pass of the loop that stays on track: the emissions are exactly what the two roundings skip. */
  lemma OnTrack(out: seq<Pattern>, out': seq<Pattern>, lo: nat, hi: Option<nat>, max: nat, w: nat,
                devlo: nat, devhi: nat, nlo: nat, nhi: nat)
    requires Mode(max) && w <= 3 && devlo <= devhi && Tracking(out, lo, hi, max, w, devlo, devhi)
    requires Rounded(lo, max, w, devlo) && Rounded(lo, max, w + 1, nlo)
    requires Above(hi, max, w + 1, nhi) || (Bounded(max, w + 1, nhi) && SafeHi(hi, max))
    requires hi.Some? ==> nhi < Shl(1, 3 - w)
    requires forall x: nat :: Fits(x, max) ==>
      (Shr(x, w) < devlo ==> Shr(x, w + 1) < nlo) && (Shr(x, w) > devhi ==> Shr(x, w + 1) > nhi) &&
      (Covered(out', x) <==> (Covered(out, x) ||
        (Shr(x, w) >= devlo && Shr(x, w + 1) < nlo) || (Shr(x, w) <= devhi && Shr(x, w + 1) > nhi)))
    requires forall x: nat :: Fits(x, max) && Shr(x, w + 1) < nlo ==> Shr(x, w) < devlo || Shr(x, w) <= devhi
    requires forall x: nat :: Fits(x, max) && Shr(x, w + 1) > nhi ==> Shr(x, w) > devhi || Shr(x, w) >= devlo
    ensures Tracking(out', lo, hi, max, w + 1, nlo, nhi)
  {
    forall x: nat | Fits(x, max)
      ensures (Covered(out', x) <==> Below(lo, w + 1, nlo, x) || Beyond(hi, w + 1, nhi, x)) &&
        (Shr(x, w + 1) <= nhi ==> x <= DevHi(hi)) && (Below(lo, w + 1, nlo, x) ==> x <= DevHi(hi)) &&
        (Beyond(hi, w + 1, nhi, x) ==> lo <= x)
    {
      DigitsShr(x, max, w);
      if Shr(x, w) >= devlo { AtOrAbove(lo, max, w, devlo, x); }
    }
  }

  /** What has not been rounded away is at least `lo`. */
  lemma AtOrAbove(lo: nat, max: nat, w: nat, devlo: nat, x: nat)
    requires w <= 4 && Rounded(lo, max, w, devlo) && Digits(x, max) && Shr(x, w) >= devlo
    ensures lo <= x
  {
    DigitsShr(x, max, w);
    assert !(devlo > Shr(x, w)) && lo <= Shl(Shr(x, w), w);
    ShlShr(x, w);
  }

  lemma {:induction false} ShlShr(x: nat, w: nat)
    ensures Shl(Shr(x, w), w) <= x
  {
    if w > 0 {
      ShlShr(x, w - 1);
      ShlSixteen(Shr(x, w), w - 1);
      ShlMonotone(16 * Shr(x, w), Shr(x, w - 1), w - 1);
    }
  }

  lemma {:induction false} ShlMonotone(a: nat, b: nat, w: nat)
    requires a <= b
    ensures Shl(a, w) <= Shl(b, w)
  {
    if w > 0 { ShlMonotone(a, b, w - 1); }
  }

  // ---------------------------------------------------------------- one pass, and the last one

  function LowTuple(devlo: nat, w: nat, max: nat): seq<Pattern>
    requires w <= 3
  {
    if devlo % 16 > 0 then [Pattern(devlo / 16, 3 - w, devlo % 16, max)] else []
  }

  function HighTuple(devhi: nat, w: nat, max: nat): seq<Pattern>
    requires w <= 3
  {
    if devhi % 16 < max then [Pattern(devhi / 16, 3 - w, 0, devhi % 16)] else []
  }

  lemma PassCovers(out: seq<Pattern>, devlo: nat, devhi: nat, w: nat, max: nat, x: nat)
    requires w <= 2
    ensures Covered(out + LowTuple(devlo, w, max) + HighTuple(devhi, w, max), x) <==>
      Covered(out, x) ||
      (devlo % 16 > 0 && Shr(x, w + 1) == devlo / 16 && devlo % 16 <= Shr(x, w) % 16 <= max) ||
      (devhi % 16 < max && Shr(x, w + 1) == devhi / 16 && Shr(x, w) % 16 <= devhi % 16)
  {
    var low, high := LowTuple(devlo, w, max), HighTuple(devhi, w, max);
    if low != [] { Push(out, low[0], x); } else { assert out + low == out; }
    if high != [] { Push(out + low, high[0], x); } else { assert out + low + high == out + low; }
  }

  lemma PassDisjoint(out: seq<Pattern>, devlo: nat, devhi: nat, w: nat, max: nat)
    requires w <= 2 && Disjoint(out, max) && devlo / 16 != devhi / 16
    requires forall x: nat :: Fits(x, max) && Covered(out, x) ==>
      !(Shr(x, w + 1) == devlo / 16 && devlo % 16 <= Shr(x, w) % 16 <= max) &&
      !(Shr(x, w + 1) == devhi / 16 && Shr(x, w) % 16 <= devhi % 16)
    ensures Disjoint(out + LowTuple(devlo, w, max) + HighTuple(devhi, w, max), max)
  {
    var low, high := LowTuple(devlo, w, max), HighTuple(devhi, w, max);
    if low != [] { PushDisjoint(out, low[0], max); } else { assert out + low == out; }
    forall x: nat | Fits(x, max)
      ensures Covered(out + low, x) ==>
        Covered(out, x) || (Shr(x, w + 1) == devlo / 16 && devlo % 16 <= Shr(x, w) % 16 <= max)
    {
      if low != [] { Push(out, low[0], x); }
    }
    if high != [] { PushDisjoint(out + low, high[0], max); } else { assert out + low + high == out + low; }
  }

  /** A pass with a proper bound. */
  lemma BoundedPass(out: seq<Pattern>, lo: nat, hi: Option<nat>, max: nat, w: nat, devlo: nat, devhi: nat, chars: nat)
    returns (nlo: nat, nhi: nat)
    requires Mode(max) && w <= 2 && chars == 4 && devlo <= devhi && devlo / 16 != devhi / 16
    requires Tracking(out, lo, hi, max, w, devlo, devhi) && Rounded(lo, max, w, devlo) && Bounded(max, w, devhi)
    ensures nlo == if devlo % 16 > 0 then Stepped(devlo / 16, 1, max, chars) else devlo / 16
    ensures nhi == if devhi % 16 < max then Stepped(devhi / 16, -1, max, chars) else devhi / 16
    ensures Rounded(lo, max, w + 1, nlo)
    ensures Tracking(out + LowTuple(devlo, w, max) + HighTuple(devhi, w, max), lo, hi, max, w + 1, nlo, nhi)
  {
    nlo := RoundUp(lo, max, w, devlo, chars);
    nhi := RoundDown(max, w, devhi, chars);
    var out' := out + LowTuple(devlo, w, max) + HighTuple(devhi, w, max);
    TopBound(max, 3 - w);
    forall x: nat | Fits(x, max)
      ensures (Shr(x, w) < devlo ==> Shr(x, w + 1) < nlo) && (Shr(x, w) > devhi ==> Shr(x, w + 1) > nhi) &&
        (Covered(out', x) <==> (Covered(out, x) ||
          (Shr(x, w) >= devlo && Shr(x, w + 1) < nlo) || (Shr(x, w) <= devhi && Shr(x, w + 1) > nhi))) &&
        (Shr(x, w + 1) < nlo ==> Shr(x, w) < devlo || Shr(x, w) <= devhi) &&
        (Shr(x, w + 1) > nhi ==> Shr(x, w) > devhi || Shr(x, w) >= devlo)
    {
      PassCovers(out, devlo, devhi, w, max, x);
      assert Fits(x, max);
    }
    OnTrack(out, out', lo, hi, max, w, devlo, devhi, nlo, nhi);
  }

  /** A pass below a bound that lies above every number and has a large low digit. */
  lemma AbovePass(out: seq<Pattern>, lo: nat, hi: Option<nat>, max: nat, w: nat, devlo: nat, devhi: nat, chars: nat)
    returns (nlo: nat)
    requires Mode(max) && w <= 2 && chars == 4 && devlo <= devhi
    requires Tracking(out, lo, hi, max, w, devlo, devhi) && Rounded(lo, max, w, devlo)
    requires Above(hi, max, w, devhi) && devhi % 16 >= max
    ensures nlo == if devlo % 16 > 0 then Stepped(devlo / 16, 1, max, chars) else devlo / 16
    ensures Rounded(lo, max, w + 1, nlo)
    ensures Tracking(out + LowTuple(devlo, w, max) + HighTuple(devhi, w, max), lo, hi, max, w + 1, nlo, devhi / 16)
  {
    nlo := RoundUp(lo, max, w, devlo, chars);
    StillAbove(hi, max, w, devhi);
    var out' := out + LowTuple(devlo, w, max) + HighTuple(devhi, w, max);
    forall x: nat | Fits(x, max)
      ensures (Shr(x, w) < devlo ==> Shr(x, w + 1) < nlo) && Shr(x, w) <= devhi && Shr(x, w + 1) <= devhi / 16 &&
        (Covered(out', x) <==> Covered(out, x) || (Shr(x, w) >= devlo && Shr(x, w + 1) < nlo))
    {
      PassCovers(out, devlo, devhi, w, max, x);
      FitsBelowTop(x, max, w);
      FitsBelowTop(x, max, w + 1);
    }
    OnTrack(out, out', lo, hi, max, w, devlo, devhi, nlo, devhi / 16);
  }

  predicate HasSmallDigit(h: nat, w: nat)
    requires w <= 2
  {
    Shr(h, w) % 16 < 9 && forall k :: 0 <= k < w ==> Shr(h, k) % 16 >= 9
  }

  lemma GapIsHere(h: nat, w: nat)
    requires w <= 2 && HasSmallDigit(h, w)
    ensures GapWidth(h) == w + 1
  {
    Shr4(h);
    if w >= 1 { assert Shr(h, 0) % 16 >= 9; }
    if w >= 2 { assert Shr(h, 1) % 16 >= 9; }
  }

  /** The forced decrement steps below the bound forced into decimal. */
  lemma BelowForced(p: nat, n: nat, chars: nat)
    requires n <= 3 && chars == 4 && p > 0 && Shr(p, n) == 0
    ensures forall y: nat :: Digits(y, 9) ==> (y > Stepped(p, -1, 9, chars) <==> y >= Forced(p))
  {
    ForcedReads(p, n);
    ForcedReads(p, chars);
    TopIsLargest(Forced(p), 9, n);
    NextDown(Forced(p), 9, n, chars);
    assert Stepped(p, -1, 9, chars) == Stepped(Forced(p), -1, 9, chars);
  }

  /** What has been accepted when the top block is dropped. */
  lemma GapCut(out': seq<Pattern>, lo: nat, h: nat, w: nat, nlo: nat, nhi: nat)
    requires w <= 2 && GapWidth(h) == w + 1 && Rounded(lo, 9, w + 1, nlo)
    requires forall y: nat :: Digits(y, 9) ==> (y > nhi <==> y >= Forced(Shr(h, w + 1)))
    requires forall x: nat :: Fits(x, 9) ==> (Covered(out', x) <==> lo <= x && Shr(x, w + 1) < nlo)
    ensures Cut(out', lo, h, 9, w + 1, nlo, nhi)
  {
    forall x: nat | Fits(x, 9)
      ensures (Covered(out', x) <==> Kept(lo, h, x) && (Shr(x, w + 1) < nlo || Shr(x, w + 1) > nhi)) &&
        (nlo <= Shr(x, w + 1) <= nhi ==> Kept(lo, h, x))
    {
      DigitsShr(x, 9, w + 1);
      if nlo <= Shr(x, w + 1) { AtOrAbove(lo, 9, w + 1, nlo, x); }
    }
  }

  lemma WhenLost(lo: nat, h: nat, w: nat)
    requires w <= 2 && 0x9999 < h < 0x10000 && HasSmallDigit(h, w)
    ensures Representable(lo, Some(h), 9) <==> lo > Shl(Top(9, 3 - w), w + 1)
  {
    Shr4(h);
    TopAndOne();
    assert Shr(h, 0) == h;
    if w >= 1 { assert Shr(h, 0) % 16 >= 9; }
    if w >= 2 { assert Shr(h, 1) % 16 >= 9; }
    assert Shl(0x999, 1) == 0x9990;
    assert Shl(0x99, 1) == 0x990 && Shl(0x99, 2) == 0x9900;
    assert Shl(9, 1) == 0x90 && Shl(9, 2) == 0x900 && Shl(9, 3) == 0x9000;
  }

  lemma GapNumbers(lo: nat, hi: Option<nat>, w: nat, devhi: nat, nlo: nat, chars: nat)
    requires w <= 2 && chars == 4 && hi.Some? && devhi < Shl(1, 4 - w)
    requires Above(hi, 9, w, devhi) && devhi % 16 < 9 && Rounded(lo, 9, w + 1, nlo)
    ensures devhi / 16 > Top(9, 3 - w)
    ensures var nhi := Stepped(devhi / 16, -1, 9, chars); Bounded(9, w + 1, nhi) && nhi < Top(9, 3 - w)
    ensures GapWidth(hi.value) == w + 1 && Shr(hi.value, w + 1) == devhi / 16
    ensures Representable(lo, hi, 9) <==> nlo > Top(9, 3 - w)
  {
    assert Top(9, 4 - w) == 16 * Top(9, 3 - w) + 9 && Shl(1, 4 - w) == 16 * Shl(1, 3 - w);
    BeyondTop(devhi / 16, 3 - w);
    ForcedDown(devhi / 16, 3 - w, chars);
    TopDigits(9, 3 - w);
    assert HasSmallDigit(hi.value, w);
    WhenLost(lo, hi.value, w);
    GapIsHere(hi.value, w);
  }

  lemma GapCovers(out: seq<Pattern>, lo: nat, hi: Option<nat>, max: nat, w: nat, devlo: nat, devhi: nat, nlo: nat,
                  x: nat)
    requires w <= 2 && devhi / 16 > Top(max, 3 - w) && Fits(x, max)
    requires Tracking(out, lo, hi, max, w, devlo, devhi) && Rounded(lo, max, w, devlo) && Above(hi, max, w, devhi)
    requires (Shr(x, w) < devlo ||
       (devlo % 16 > 0 && Shr(x, w + 1) == devlo / 16 && devlo % 16 <= Shr(x, w) % 16 <= max)) <==>
      Shr(x, w + 1) < nlo
    ensures Covered(out + LowTuple(devlo, w, max) + HighTuple(devhi, w, max), x) <==> lo <= x && Shr(x, w + 1) < nlo
  {
    PassCovers(out, devlo, devhi, w, max, x);
    FitsBelowTop(x, max, w);
    FitsBelowTop(x, max, w + 1);
    if Shr(x, w) >= devlo { AtOrAbove(lo, max, w, devlo, x); }
  }

  /** The pass at the first small digit of a bound above every decimal number: the forced decrement
      drops the top block. Nothing is lost exactly when `lo` has already been rounded past it. */
  lemma GapPass(out: seq<Pattern>, lo: nat, hi: Option<nat>, max: nat, w: nat, devlo: nat, devhi: nat, chars: nat)
    returns (nlo: nat, nhi: nat)
    requires w <= 2 && chars == 4 && max == 9 && hi.Some? && Fits(lo, 9)
    requires Tracking(out, lo, hi, max, w, devlo, devhi) && Rounded(lo, max, w, devlo)
    requires Above(hi, max, w, devhi) && devhi % 16 < max
    ensures nlo == if devlo % 16 > 0 then Stepped(devlo / 16, 1, max, chars) else devlo / 16
    ensures nhi == if devhi % 16 < max then Stepped(devhi / 16, -1, max, chars) else devhi / 16
    ensures Rounded(lo, max, w + 1, nlo) && Bounded(max, w + 1, nhi)
    ensures var out' := out + LowTuple(devlo, w, max) + HighTuple(devhi, w, max);
      Lost(out', lo, hi, max, w + 1, nlo, nhi) ||
      (nlo > nhi && Exact(out', lo, hi, max) && Representable(lo, hi, max))
  {
    nlo := RoundUp(lo, max, w, devlo, chars);
    nhi := Stepped(devhi / 16, -1, max, chars);
    GapNumbers(lo, hi, w, devhi, nlo, chars);
    var out' := out + LowTuple(devlo, w, max) + HighTuple(devhi, w, max);
    forall x: nat | Fits(x, max)
      ensures Covered(out', x) <==> lo <= x && Shr(x, w + 1) < nlo
    {
      GapCovers(out, lo, hi, max, w, devlo, devhi, nlo, x);
    }
    GapOutcome(out', lo, hi, w, nlo);
    GapBelow(devhi, w, chars);
    GapCut(out', lo, hi.value, w, nlo, nhi);
  }

  lemma GapBelow(devhi: nat, w: nat, chars: nat)
    requires w <= 2 && chars == 4 && Top(9, 3 - w) < devhi / 16 && devhi < Shl(1, 4 - w)
    ensures forall y: nat :: Digits(y, 9) ==> (y > Stepped(devhi / 16, -1, 9, chars) <==> y >= Forced(devhi / 16))
  {
    assert Shl(1, 4 - w) == 16 * Shl(1, 3 - w);
    BeyondTop(devhi / 16, 3 - w);
    BelowForced(devhi / 16, 3 - w, chars);
  }

  lemma GapOutcome(out': seq<Pattern>, lo: nat, hi: Option<nat>, w: nat, nlo: nat)
    requires w <= 2 && Fits(lo, 9) && hi.Some? && hi.value > 0x9999
    requires forall x: nat :: Fits(x, 9) ==> (Covered(out', x) <==> lo <= x && Shr(x, w + 1) < nlo)
    ensures lo <= 0x9999
    ensures if nlo > Top(9, 3 - w) then Exact(out', lo, hi, 9) else !Covered(out', 0x9999)
  {
    LowerInRange(lo);
    if nlo > Top(9, 3 - w) {
      forall x: nat | Fits(x, 9)
        ensures Covered(out', x) <==> InRange(x, lo, hi)
      {
        FitsBelowTop(x, 9, w + 1);
        LowerInRange(x);
      }
    } else {
      NinesShifted(w + 1);
    }
  }

  lemma LowerInRange(x: nat)
    requires x < 0x10000 && Digits(x, 9)
    ensures x <= 0x9999
  {
    Shr4(x);
    TopIsLargest(x, 9, 4);
    TopAndOne();
  }

  lemma NinesShifted(w: nat)
    requires w <= 4
    ensures Fits(0x9999, 9) && Shr(0x9999, w) == Top(9, 4 - w)
  {
    var x := 0x9999;
    Shr4(x);
    TopAndOne();
    TopDigits(9, 4);
    assert w == 0 || w == 1 || w == 2 || w == 3 || w == 4;
  }

  lemma LostLow(max: nat, w: nat, devlo: nat, devhi: nat, chars: nat)
    requires Mode(max) && w <= 2 && chars == 4 && devlo <= devhi && devlo / 16 != devhi / 16
    requires Digits(devlo, max) && Bounded(max, w, devhi)
    ensures (if devlo % 16 > 0 then Stepped(devlo / 16, 1, max, chars) else devlo / 16) <= Top(max, 3 - w)
  {
    hide Stepped;
    assert Top(max, 4 - w) == 16 * Top(max, 3 - w) + max;
    assert Digits(devhi / 16, max) && devlo / 16 < devhi / 16;
    var next := NextPrefix(max, w, devlo, chars);
  }

  /** A pass after that keeps to what is kept. */
  lemma CutPass(out: seq<Pattern>, out': seq<Pattern>, lo: nat, h: nat, max: nat, w: nat, devlo: nat, devhi: nat,
                nlo: nat, nhi: nat)
    requires Cut(out, lo, h, max, w, devlo, devhi)
    requires forall x: nat :: Fits(x, max) ==>
      (Shr(x, w) < devlo ==> Shr(x, w + 1) < nlo) && (Shr(x, w) > devhi ==> Shr(x, w + 1) > nhi) &&
      (Covered(out', x) <==> (Covered(out, x) ||
        (Shr(x, w) >= devlo && Shr(x, w + 1) < nlo) || (Shr(x, w) <= devhi && Shr(x, w + 1) > nhi))) &&
      (Shr(x, w + 1) < nlo ==> Shr(x, w) < devlo || Shr(x, w) <= devhi) &&
      (Shr(x, w + 1) > nhi ==> Shr(x, w) > devhi || Shr(x, w) >= devlo)
    ensures Cut(out', lo, h, max, w + 1, nlo, nhi)
  {
    hide Kept; hide Covered; hide Shr; hide Fits;
  }

  /** Once lost, the top block stays uncovered. */
  lemma LostPass(out: seq<Pattern>, lo: nat, hi: Option<nat>, max: nat, w: nat, devlo: nat, devhi: nat, chars: nat)
    returns (nlo: nat, nhi: nat)
    requires Mode(max) && w <= 2 && chars == 4 && devlo <= devhi && devlo / 16 != devhi / 16
    requires Lost(out, lo, hi, max, w, devlo, devhi) && Rounded(lo, max, w, devlo)
    ensures nlo == if devlo % 16 > 0 then Stepped(devlo / 16, 1, max, chars) else devlo / 16
    ensures nhi == if devhi % 16 < max then Stepped(devhi / 16, -1, max, chars) else devhi / 16
    ensures Rounded(lo, max, w + 1, nlo)
    ensures Lost(out + LowTuple(devlo, w, max) + HighTuple(devhi, w, max), lo, hi, max, w + 1, nlo, nhi)
  {
    hide Stepped; hide Representable; hide Digits; hide LowTuple; hide HighTuple; hide Covered; hide Shr;
    nlo := RoundUp(lo, max, w, devlo, chars);
    nhi := RoundDown(max, w, devhi, chars);
    assert Top(max, 4 - w) == 16 * Top(max, 3 - w) + max;
    LostLow(max, w, devlo, devhi, chars);
    var out' := out + LowTuple(devlo, w, max) + HighTuple(devhi, w, max);
    NinesShifted(w);
    NinesShifted(w + 1);
    PassCovers(out, devlo, devhi, w, max, 0x9999);
    forall x: nat | Fits(x, max) && Covered(out', x)
      ensures Shr(x, w + 1) < nlo || Shr(x, w + 1) > nhi
    {
      PassCovers(out, devlo, devhi, w, max, x);
    }
    LostCut(out, out', lo, hi, max, w, devlo, devhi, nlo, nhi);
  }

  lemma LostCut(out: seq<Pattern>, out': seq<Pattern>, lo: nat, hi: Option<nat>, max: nat, w: nat, devlo: nat,
                devhi: nat, nlo: nat, nhi: nat)
    requires Mode(max) && w <= 2 && devlo <= devhi && devlo / 16 != devhi / 16 && hi.Some?
    requires Cut(out, lo, hi.value, max, w, devlo, devhi)
    requires forall x: nat :: Fits(x, max) ==>
      ((Shr(x, w) < devlo || (devlo % 16 > 0 && Shr(x, w + 1) == devlo / 16 && devlo % 16 <= Shr(x, w) % 16 <= max))
        <==> Shr(x, w + 1) < nlo)
    requires forall x: nat :: Fits(x, max) ==>
      ((Shr(x, w) > devhi || (devhi % 16 < max && Shr(x, w + 1) == devhi / 16 && Shr(x, w) % 16 <= devhi % 16))
        <==> Shr(x, w + 1) > nhi)
    requires out' == out + LowTuple(devlo, w, max) + HighTuple(devhi, w, max)
    ensures Cut(out', lo, hi.value, max, w + 1, nlo, nhi)
  {
    forall x: nat | Fits(x, max)
      ensures (Shr(x, w) < devlo ==> Shr(x, w + 1) < nlo) && (Shr(x, w) > devhi ==> Shr(x, w + 1) > nhi) &&
        (Covered(out', x) <==> (Covered(out, x) ||
          (Shr(x, w) >= devlo && Shr(x, w + 1) < nlo) || (Shr(x, w) <= devhi && Shr(x, w + 1) > nhi))) &&
        (Shr(x, w + 1) < nlo ==> Shr(x, w) < devlo || Shr(x, w) <= devhi) &&
        (Shr(x, w + 1) > nhi ==> Shr(x, w) > devhi || Shr(x, w) >= devlo)
    {
      PassCovers(out, devlo, devhi, w, max, x);
    }
    CutPass(out, out', lo, hi.value, max, w, devlo, devhi, nlo, nhi);
  }

  function LastTuple(devlo: nat, devhi: nat, w: nat, max: nat): Pattern
    requires w <= 3
  {
    Pattern(devlo / 16, 3 - w, devlo % 16, if devhi % 16 > max then max else devhi % 16)
  }

  /** The last tuple takes what is left between the two roundings. */
  lemma MatchesLast(devlo: nat, devhi: nat, w: nat, max: nat, x: nat)
    requires w <= 3
    ensures Matches(LastTuple(devlo, devhi, w, max), x) <==>
      (w == 3 || Shr(x, w) / 16 == devlo / 16) &&
      devlo % 16 <= Shr(x, w) % 16 <= (if devhi % 16 > max then max else devhi % 16)
  {
    assert Shr(x, w + 1) == Shr(x, w) / 16;
    hide Shr;
  }

  lemma DigitBetween(y: nat, devlo: nat, devhi: nat, single: bool)
    requires devlo <= devhi && if single then y < 16 && devhi < 16 else devlo / 16 == devhi / 16
    ensures (single || y / 16 == devlo / 16) && devlo % 16 <= y % 16 <= devhi % 16 <==> devlo <= y <= devhi
  {
  }

  lemma BoundedMatches(devlo: nat, devhi: nat, w: nat, max: nat, x: nat)
    requires Mode(max) && w <= 3 && devlo <= devhi && (devlo / 16 == devhi / 16 || w == 3)
    requires Bounded(max, w, devhi) && Fits(x, max)
    ensures Matches(LastTuple(devlo, devhi, w, max), x) <==> devlo <= Shr(x, w) <= devhi
  {
    hide Digits; hide Shr; hide Matches; hide LastTuple;
    MatchesLast(devlo, devhi, w, max, x);
    FitsBelowTop(x, max, w);
    LowDigit(devhi, max);
    if w == 3 { assert Top(max, 4 - w) == max; }
    hide Top;
    DigitBetween(Shr(x, w), devlo, devhi, w == 3);
  }

  lemma LowDigit(x: nat, max: nat)
    requires Digits(x, max)
    ensures x % 16 <= max
  {
  }

  lemma LastBounded(out: seq<Pattern>, lo: nat, hi: Option<nat>, max: nat, w: nat, devlo: nat, devhi: nat)
    requires Mode(max) && w <= 3 && devlo <= devhi && (devlo / 16 == devhi / 16 || w == 3)
    requires Tracking(out, lo, hi, max, w, devlo, devhi) && Rounded(lo, max, w, devlo)
    requires Bounded(max, w, devhi) && SafeHi(hi, max) && Disjoint(out, max)
    ensures var all := out + [LastTuple(devlo, devhi, w, max)];
      Exact(all, lo, hi, max) && Disjoint(all, max) && Representable(lo, hi, max)
  {
    hide Covered; hide Digits;
    var p := LastTuple(devlo, devhi, w, max);
    forall x: nat | Fits(x, max)
      ensures Matches(p, x) <==> devlo <= Shr(x, w) <= devhi
      ensures Covered(out + [p], x) <==> InRange(x, lo, hi)
    {
      BoundedMatches(devlo, devhi, w, max, x);
      Push(out, p, x);
      if Shr(x, w) >= devlo { AtOrAbove(lo, max, w, devlo, x); }
    }
    hide Matches; hide Top; hide Shr;
    PushDisjoint(out, p, max);
  }

  lemma AboveMatches(hi: Option<nat>, devlo: nat, devhi: nat, w: nat, max: nat, x: nat)
    requires Mode(max) && w <= 3 && devlo <= devhi && (devlo / 16 == devhi / 16 || w == 3)
    requires Above(hi, max, w, devhi) && hi.Some? && devhi < Shl(1, 4 - w) && Fits(x, max)
    ensures Matches(LastTuple(devlo, devhi, w, max), x) <==> devlo <= Shr(x, w)
    ensures Shr(x, w) <= devhi
  {
    hide Digits; hide Matches; hide LastTuple;
    MatchesLast(devlo, devhi, w, max, x);
    FitsBelowTop(x, max, w);
    DigitsShr(x, max, w);
    LowDigit(Shr(x, w), max);
    AboveDigits(max, w, devhi);
    hide Shr;
    if w == 3 { assert Top(max, 4 - w) == max; }
    hide Top;
    DigitAbove(Shr(x, w), devlo, devhi, max, w == 3);
  }

  lemma DigitAbove(y: nat, devlo: nat, devhi: nat, max: nat, single: bool)
    requires devlo <= devhi && y <= devhi && y % 16 <= max <= 9
    requires if single then y < 16 && devhi < 16 else devlo / 16 == devhi / 16
    ensures (single || y / 16 == devlo / 16) && devlo % 16 <= y % 16 <= (if devhi % 16 > max then max else devhi % 16)
            <==> devlo <= y
  {
  }

  lemma AboveDigits(max: nat, w: nat, devhi: nat)
    requires Mode(max) && w <= 3 && Top(max, 4 - w) < devhi < Shl(1, 4 - w)
    ensures max == 9 && (w == 3 ==> 9 < devhi < 16)
  {
    TopAndOne();
    assert w == 0 || w == 1 || w == 2 || w == 3;
  }

  lemma LastAbove(out: seq<Pattern>, lo: nat, hi: Option<nat>, max: nat, w: nat, devlo: nat, devhi: nat)
    requires Mode(max) && w <= 3 && devlo <= devhi && (devlo / 16 == devhi / 16 || w == 3)
    requires Tracking(out, lo, hi, max, w, devlo, devhi) && Rounded(lo, max, w, devlo)
    requires Above(hi, max, w, devhi) && hi.Some? && Disjoint(out, max)
    ensures var all := out + [LastTuple(devlo, devhi, w, max)];
      Exact(all, lo, hi, max) && Disjoint(all, max) && Representable(lo, hi, max)
  {
    hide Covered; hide Digits;
    var p := LastTuple(devlo, devhi, w, max);
    forall x: nat | Fits(x, max)
      ensures Matches(p, x) <==> devlo <= Shr(x, w)
      ensures Covered(out + [p], x) <==> InRange(x, lo, hi)
      ensures Shr(x, w) <= devhi
    {
      AboveMatches(hi, devlo, devhi, w, max, x);
      Push(out, p, x);
      LowerInRange(x);
      if Shr(x, w) >= devlo { AtOrAbove(lo, max, w, devlo, x); }
    }
    StillAbove(hi, max, w, devhi);
    hide Matches; hide Top; hide Shr; hide Rounded;
    PushDisjoint(out, p, max);
  }

  lemma OpenNumbers(lo: nat, max: nat, w: nat, devlo: nat, devhi: nat)
    requires Mode(max) && w <= 3 && devlo <= devhi && (devlo / 16 == devhi / 16 || w == 3)
    requires Rounded(lo, max, w, devlo) && Above(None, max, w, devhi)
    ensures w == 3 && devhi >= 0xFFFF && (devlo <= max || devlo == 16)
    ensures devlo <= max <==> Representable(lo, None, max)
  {
    AllOnes(w + 1);
    assert devhi / 16 == Shr(0xFFFF_FFFF, w + 1) >= 0xFFFF;
    TopBound(max, 4 - w);
    assert w == 3;
    TopAndOne();
    assert Top(max, 4 - w) == max && Shl(1, 4 - w) == 16;
    assert Digits(max, max);
    assert Shl(max, 1) == 16 * max && Shl(max, 2) == 256 * max && Shl(max, w) == 4096 * max;
  }

  /** Without an upper bound the last tuple has no prefix; a carry out of the top digit makes it match
      everything. */
  lemma OpenMatches(devlo: nat, devhi: nat, w: nat, max: nat, x: nat)
    requires Mode(max) && w == 3 && Fits(x, max) && devhi % 16 == 15 && (devlo <= max || devlo == 16)
    ensures Matches(LastTuple(devlo, devhi, w, max), x) <==> devlo == 16 || devlo <= Shr(x, w)
    ensures Shr(x, w) <= max
  {
    hide Matches; hide LastTuple; hide Digits; hide Shr;
    MatchesLast(devlo, devhi, w, max, x);
    FitsBelowTop(x, max, w);
    assert Top(max, 4 - w) == max;
  }

  lemma LastOpen(out: seq<Pattern>, lo: nat, max: nat, w: nat, devlo: nat, devhi: nat)
    requires Mode(max) && w <= 3 && devlo <= devhi && (devlo / 16 == devhi / 16 || w == 3) && Fits(lo, max)
    requires Tracking(out, lo, None, max, w, devlo, devhi) && Rounded(lo, max, w, devlo) && Disjoint(out, max)
    requires Above(None, max, w, devhi) && devhi % 16 == 15
    ensures var all := out + [LastTuple(devlo, devhi, w, max)];
      (Exact(all, lo, None, max) <==> Representable(lo, None, max)) &&
      (Disjoint(all, max) <==> Representable(lo, None, max)) &&
      (!Representable(lo, None, max) ==> Remains(all, lo, None, max))
  {
    OpenNumbers(lo, max, w, devlo, devhi);
    var p := LastTuple(devlo, devhi, w, max);
    var all := out + [p];
    forall x: nat | Fits(x, max)
      ensures Covered(all, x) <==> Covered(out, x) || Matches(p, x)
      ensures Matches(p, x) <==> devlo == 16 || devlo <= Shr(x, w)
      ensures Shr(x, w) <= max && (Covered(out, x) <==> lo <= x && Shr(x, w) < devlo)
      ensures Shr(x, w) >= devlo ==> lo <= x
    {
      OpenMatches(devlo, devhi, w, max, x);
      Push(out, p, x);
      if Shr(x, w) >= devlo { AtOrAbove(lo, max, w, devlo, x); }
    }
    if devlo <= max {
      PushDisjoint(out, p, max);
    } else {
      assert Fits(0, max) && Covered(all, 0) && !InRange(0, lo, None);
      assert Covered(out, lo);
      var i :| 0 <= i < |out| && Matches(out[i], lo);
      assert all[i] == out[i] && all[|out|] == p && Matches(p, lo);
    }
  }

  lemma LastLost(out: seq<Pattern>, lo: nat, hi: Option<nat>, max: nat, w: nat, devlo: nat, devhi: nat)
    requires Mode(max) && w <= 3 && devlo <= devhi && (devlo / 16 == devhi / 16 || w == 3)
    requires Lost(out, lo, hi, max, w, devlo, devhi) && Rounded(lo, max, w, devlo) && Disjoint(out, max)
    ensures var all := out + [LastTuple(devlo, devhi, w, max)];
      !Exact(all, lo, hi, max) && Disjoint(all, max) && Remains(all, lo, hi, max)
  {
    hide Kept;
    var p := LastTuple(devlo, devhi, w, max);
    assert Top(max, 4 - w) == 16 * Top(max, 3 - w) + max;
    forall x: nat | Fits(x, max)
      ensures Matches(p, x) <==> devlo <= Shr(x, w) <= devhi
    {
      FitsBelowTop(x, max, w);
      DigitsShr(x, max, w);
    }
    PushDisjoint(out, p, max);
    NinesShifted(w);
    Push(out, p, 0x9999);
    assert InRange(0x9999, lo, hi);
    LastRemains(out, p, lo, hi.value, max, w, devlo, devhi);
  }

  lemma LastRemains(out: seq<Pattern>, p: Pattern, lo: nat, h: nat, max: nat, w: nat, devlo: nat, devhi: nat)
    requires Cut(out, lo, h, max, w, devlo, devhi)
    requires forall x: nat :: Fits(x, max) ==> (Matches(p, x) <==> devlo <= Shr(x, w) <= devhi)
    ensures Remains(out + [p], lo, Some(h), max)
  {
    hide Kept; hide Matches; hide Covered; hide Shr; hide Fits;
    forall x: nat | Fits(x, max)
      ensures Covered(out + [p], x) <==> Kept(lo, h, x)
    {
      Push(out, p, x);
    }
  }

  // ---------------------------------------------------------------- glob text

  /** Three leading digits and a last digit left free: no range and no star is printed. */
  predicate LosesLastDigit(p: Pattern, max: nat) {
    p.ndigits == 3 && p.lo == 0 && p.hi == max
  }

  lemma {:induction false} HexTextSplit(x: nat, n: nat, m: nat)
    ensures HexText(x, n + m) == HexText(Shr(x, m), n) + HexText(x, m)
  {
    if m > 0 {
      ShrLow(x, m - 1);
      HexTextSplit(x / 16, n, m - 1);
    }
  }

  lemma {:induction false} HexTextInjective(x: nat, y: nat, n: nat)
    requires Shr(x, n) == 0 && Shr(y, n) == 0
    ensures HexText(x, n) == HexText(y, n) <==> x == y
  {
    if n > 0 {
      ShrLow(x, n - 1);
      ShrLow(y, n - 1);
      HexTextInjective(x / 16, y / 16, n - 1);
      HexCharInjective(x % 16, y % 16);
      var s, t := HexText(x, n), HexText(y, n);
      assert s[..n - 1] == HexText(x / 16, n - 1) && t[..n - 1] == HexText(y / 16, n - 1);
      assert s[n - 1] == HexChar(x % 16) && t[n - 1] == HexChar(y % 16);
    }
  }

  /** What stands between the brackets for the digits a to b. */
  function RangeSet(a: nat, b: nat): string
    requires a < 16 && b < 16
  {
    if a > 9 || b < 0xA then [HexChar(a), '-', HexChar(b)]
    else (if a < 9 then [HexChar(a), '-', '9'] else [HexChar(a)]) +
         (if b > 0xA then ['A', '-', HexChar(b)] else [HexChar(b)])
  }

  /** Splitting the range at the gap between 9 and A keeps exactly the hex digits from a to b. */
  lemma RangeSetMeans(a: nat, b: nat, d: nat)
    requires a < b < 16 && d < 16
    ensures InSet(RangeSet(a, b), HexChar(d)) <==> a <= d <= b
    ensures forall i :: 0 <= i < |RangeSet(a, b)| ==> RangeSet(a, b)[i] != ']'
  {
    HexCharInjective(a, d);
    HexCharInjective(d, b);
    HexCharInjective(d, 9);
    HexCharInjective(d, 10);
    var t, c := RangeSet(a, b), HexChar(d);
    if a > 9 || b < 0xA {
      assert t[3..] == "";
    } else if a < 9 {
      if b > 0xA {
        var u := t[3..];
        assert u == ['A', '-', HexChar(b)] && u[3..] == "";
        assert InSet(u, c) <==> 10 <= d <= b;
      } else {
        var u := t[3..];
        assert u == [HexChar(b)] && u[1..] == "";
        assert InSet(u, c) <==> d == b;
      }
    } else {
      if b > 0xA {
        var u := t[1..];
        assert u == ['A', '-', HexChar(b)] && u[3..] == "";
        assert InSet(u, c) <==> 10 <= d <= b;
      } else {
        var u := t[1..];
        assert u == [HexChar(b)] && u[1..] == "";
        assert InSet(u, c) <==> d == b;
      }
    }
  }

  function DigitText(p: Pattern, max: nat): string
    requires p.lo < 16 && p.hi < 16
  {
    if p.lo == p.hi then [HexChar(p.lo)]
    else if p.lo > 0 || p.hi < max then "[" + RangeSet(p.lo, p.hi) + "]"
    else ""
  }

  function StarText(p: Pattern): string { if p.ndigits < 3 then "*" else "" }

  /** Prints one tuple. The text matches the four digits of a version exactly when the tuple does,
      except that three leading digits with a free last digit match no version at all. */
  method DoUsbEntry(p: Pattern, max: nat) returns (text: string)
    requires Mode(max) && WellFormed([p]) && p.lo <= p.hi <= max
    ensures forall x: nat :: Fits(x, max) ==>
      (Glob(text, HexText(x, 4)) <==> Matches(p, x) && !LosesLastDigit(p, max))
  {
    assert [p][0] == p;
    var lit := "";
    if p.ndigits > 0 {
      lit := HexText(p.prefix, p.ndigits);
    }
    var digit := "";
    if p.lo == p.hi {
      digit := [HexChar(p.lo)];
    } else if p.lo > 0 || p.hi < max {
      if p.lo > 0x9 || p.hi < 0xA {
        digit := "[" + [HexChar(p.lo), '-', HexChar(p.hi)] + "]";
      } else {
        digit := "[" + (if p.lo < 0x9 then [HexChar(p.lo), '-', '9'] else [HexChar(p.lo)]);
        digit := digit + ((if p.hi > 0xA then ['A', '-', HexChar(p.hi)] else [HexChar(p.hi)]) + "]");
      }
      assert digit == DigitText(p, max);
    }
    var star := "";
    if p.ndigits < 3 {
      star := "*";
    }
    text := lit + (digit + star);
    forall x: nat | Fits(x, max)
      ensures Glob(text, HexText(x, 4)) <==> Matches(p, x) && !LosesLastDigit(p, max)
    {
      EntryMeans(p, max, lit, x, 4);
    }
  }

  lemma TextParts(x: nat, n: nat, digits: nat)
    requires n <= 3 && digits == 4
    ensures HexText(x, digits) == HexText(Shr(x, 4 - n), n) + ([HexChar(Shr(x, 3 - n) % 16)] + HexText(x, 3 - n))
  {
    var m := 3 - n;
    HexTextSplit(x, n, m + 1);
    HexTextSplit(x, 1, m);
    OneDigit(Shr(x, m));
    assert 1 + m == m + 1 == 4 - n;
  }

  lemma OneDigit(y: nat)
    ensures HexText(y, 1) == [HexChar(y % 16)]
  {
    assert HexText(y, 1) == HexText(y / 16, 0) + [HexChar(y % 16)];
  }

  lemma HeadMeans(p: Pattern, lit: string, x: nat)
    requires WellFormed([p]) && x < 0x10000
    requires lit == if p.ndigits > 0 then HexText(p.prefix, p.ndigits) else ""
    ensures p.ndigits <= 3 && Plain(lit) && |lit| == p.ndigits
    ensures lit == HexText(Shr(x, 4 - p.ndigits), p.ndigits) <==> (p.ndigits > 0 ==> Shr(x, 4 - p.ndigits) == p.prefix)
  {
    assert [p][0] == p;
    var n := p.ndigits;
    PlainHex(p.prefix, n);
    ShrAdd(x, 4 - n, n);
    Shr4(x);
    if n > 0 { HexTextInjective(Shr(x, 4 - n), p.prefix, n); }
  }

  lemma EntryMeans(p: Pattern, max: nat, lit: string, x: nat, digits: nat)
    requires Mode(max) && WellFormed([p]) && p.lo <= p.hi <= max && Fits(x, max) && digits == 4
    requires lit == if p.ndigits > 0 then HexText(p.prefix, p.ndigits) else ""
    ensures Glob(lit + (DigitText(p, max) + StarText(p)), HexText(x, digits)) <==>
            Matches(p, x) && !LosesLastDigit(p, max)
  {
    hide Glob; hide DigitText; hide StarText; hide LosesLastDigit;
    HeadMeans(p, lit, x);
    var n := p.ndigits;
    var head, d, tail := HexText(Shr(x, 4 - n), n), Shr(x, 3 - n) % 16, HexText(x, 3 - n);
    TextParts(x, n, digits);
    DigitsShr(x, max, 3 - n);
    LiteralPrefix(lit, DigitText(p, max) + StarText(p), head, [HexChar(d)] + tail);
    DigitMeans(p, max, d, tail);
  }

  lemma DigitMeans(p: Pattern, max: nat, d: nat, tail: string)
    requires Mode(max) && p.ndigits <= 3 && p.lo <= p.hi <= max && d <= max && |tail| == 3 - p.ndigits
    ensures Glob(DigitText(p, max) + StarText(p), [HexChar(d)] + tail) <==> p.lo <= d <= p.hi && !LosesLastDigit(p, max)
  {
    var digit, star := DigitText(p, max), StarText(p);
    StarMatchesAll(tail);
    if p.lo == p.hi {
      LiteralPrefix(digit, star, [HexChar(d)], tail);
      HexCharInjective(p.lo, d);
    } else if p.lo > 0 || p.hi < max {
      RangeSetMeans(p.lo, p.hi, d);
      BracketMatches(RangeSet(p.lo, p.hi), star, HexChar(d), tail);
    } else {
      assert digit + star == star;
      StarMatchesAll([HexChar(d)] + tail);
    }
  }

  // ---------------------------------------------------------------- the whole entry

  /** The texts accept exactly the versions between the bounds. */
  ghost predicate TextExact(texts: seq<string>, lo: nat, hi: Option<nat>, max: nat) {
    forall x: nat :: Fits(x, max) ==> (TextCovers(texts, x, 4) <==> InRange(x, lo, hi))
  }

  ghost predicate TextCovers(texts: seq<string>, x: nat, digits: nat) {
    exists i :: 0 <= i < |texts| && Glob(texts[i], HexText(x, digits))
  }

  /** The two bounds share their first three digits and leave the last digit free. */
  predicate FreeLastDigit(lo: nat, hi: Option<nat>, max: nat) {
    hi.Some? && lo / 16 == hi.value / 16 && lo % 16 == 0 && hi.value % 16 >= max
  }

  ghost predicate Printed(out: seq<Pattern>, texts: seq<string>, max: nat) {
    |texts| == |out| && forall i, x: nat :: 0 <= i < |out| && Fits(x, max) ==>
      (Glob(texts[i], HexText(x, 4)) <==> Matches(out[i], x) && !LosesLastDigit(out[i], max))
  }

  lemma PrintedExact(out: seq<Pattern>, texts: seq<string>, lo: nat, hi: Option<nat>, max: nat)
    requires Printed(out, texts, max) && Fits(lo, max)
    requires FreeLastDigit(lo, hi, max) ==> |out| == 1 && LosesLastDigit(out[0], max)
    requires !FreeLastDigit(lo, hi, max) ==> forall i :: 0 <= i < |out| ==> !LosesLastDigit(out[i], max)
    requires Exact(out, lo, hi, max) <==> Representable(lo, hi, max)
    ensures TextCoversLike(texts, out, lo, hi, max)
    ensures TextExact(texts, lo, hi, max) <==> Representable(lo, hi, max) && !FreeLastDigit(lo, hi, max)
  {
    if FreeLastDigit(lo, hi, max) {
      assert !TextCovers(texts, lo, 4) && InRange(lo, lo, hi);
    } else {
      forall x: nat | Fits(x, max)
        ensures TextCovers(texts, x, 4) <==> Covered(out, x)
      {
      }
    }
  }

  ghost predicate Going(out: seq<Pattern>, lo: nat, hi: Option<nat>, max: nat, w: nat, devlo: nat, devhi: nat)
    requires w <= 4
  {
    Disjoint(out, max) && Rounded(lo, max, w, devlo) &&
    (Tracking(out, lo, hi, max, w, devlo, devhi) || Lost(out, lo, hi, max, w, devlo, devhi) ||
     (devlo > devhi && hi.Some? && Exact(out, lo, hi, max) && Representable(lo, hi, max)))
  }

  ghost predicate Outcome(out: seq<Pattern>, lo: nat, hi: Option<nat>, max: nat) {
    (Exact(out, lo, hi, max) <==> Representable(lo, hi, max)) &&
    (Disjoint(out, max) <==> hi.Some? || Representable(lo, hi, max)) &&
    (!Representable(lo, hi, max) ==> Remains(out, lo, hi, max))
  }

  lemma GoingExit(out: seq<Pattern>, lo: nat, hi: Option<nat>, max: nat, w: nat, devlo: nat, devhi: nat)
    requires Mode(max) && w <= 3 && Fits(lo, max) && devlo > devhi && Going(out, lo, hi, max, w, devlo, devhi)
    ensures hi.Some? && Outcome(out, lo, hi, max)
  {
    if Lost(out, lo, hi, max, w, devlo, devhi) {
      NinesShifted(w);
      assert InRange(0x9999, lo, hi);
    } else if Tracking(out, lo, hi, max, w, devlo, devhi) {
      if Above(hi, max, w, devhi) {
        ExitAbove(lo, hi, max, w, devlo, devhi);
      }
      forall x: nat | Fits(x, max)
        ensures Covered(out, x) <==> InRange(x, lo, hi)
      {
        if hi.Some? && Above(hi, max, w, devhi) { FitsBelowTop(x, max, w); }
      }
    }
  }

  lemma ExitAbove(lo: nat, hi: Option<nat>, max: nat, w: nat, devlo: nat, devhi: nat)
    requires Mode(max) && w <= 3 && Fits(lo, max) && devlo > devhi
    requires Above(hi, max, w, devhi) && Rounded(lo, max, w, devlo)
    ensures hi.Some? && Representable(lo, hi, max)
  {
    BeyondTopBlock(lo, max, w, devlo, devhi);
    hide Rounded; hide Digits;
    TopBound(max, 4 - w);
    if hi.None? {
      AllOnes(w);
      OpenIsHuge(w);
      assert false;
    }
    var h := hi.value;
    assert w >= 1 ==> Shr(h, 0) % 16 >= 9;
    assert w >= 2 ==> Shr(h, 1) % 16 >= 9;
    assert w >= 3 ==> Shr(h, 2) % 16 >= 9;
    Shr4(h);
    TopShifted(w);
    LowerInRange(lo);
  }

  /** When the low bound has passed an upper bound above every number, it lies above the top block. */
  lemma BeyondTopBlock(lo: nat, max: nat, w: nat, devlo: nat, devhi: nat)
    requires Mode(max) && w <= 3 && Rounded(lo, max, w, devlo) && Top(max, 4 - w) < devhi < devlo
    ensures lo > Shl(Top(max, 4 - w), w)
  {
    TopDigits(max, 4 - w);
    hide Digits; hide Top; hide Shl;
  }

  lemma TopShifted(w: nat)
    requires w <= 3
    ensures Shl(Top(9, 4 - w), w) ==
            if w == 0 then 0x9999 else if w == 1 then 0x9990 else if w == 2 then 0x9900 else 0x9000
  {
    TopAndOne();
    hide Top;
    assert Shl(0x9999, 0) == 0x9999 && Shl(0x999, 0) == 0x999 && Shl(0x999, 1) == 0x9990;
    assert Shl(0x99, 1) == 0x990 && Shl(0x99, 2) == 0x9900;
    assert Shl(9, 1) == 0x90 && Shl(9, 2) == 0x900 && Shl(9, 3) == 0x9000;
    assert w == 0 || w == 1 || w == 2 || w == 3;
  }

  lemma OpenIsHuge(w: nat)
    requires w <= 3
    ensures Shr(0xFFFF_FFFF, w) > 0x10000
  {
    var x := 0xFFFF_FFFF;
    Shr4(x);
    assert w == 0 || w == 1 || w == 2 || w == 3;
  }

  lemma GoingLast(out: seq<Pattern>, lo: nat, hi: Option<nat>, max: nat, w: nat, devlo: nat, devhi: nat)
    requires Mode(max) && w <= 3 && Fits(lo, max) && devlo <= devhi && (devlo / 16 == devhi / 16 || w == 3)
    requires Going(out, lo, hi, max, w, devlo, devhi)
    ensures Outcome(out + [LastTuple(devlo, devhi, w, max)], lo, hi, max)
  {
    if Lost(out, lo, hi, max, w, devlo, devhi) {
      LastLost(out, lo, hi, max, w, devlo, devhi);
    } else if Bounded(max, w, devhi) && SafeHi(hi, max) {
      LastBounded(out, lo, hi, max, w, devlo, devhi);
    } else if hi.Some? {
      LastAbove(out, lo, hi, max, w, devlo, devhi);
    } else {
      OpenLowDigit(w);
      LastOpen(out, lo, max, w, devlo, devhi);
    }
  }

  lemma OpenLowDigit(w: nat)
    requires w <= 3
    ensures Shr(0xFFFF_FFFF, w) % 16 == 15
  {
    var x := 0xFFFF_FFFF;
    Shr4(x);
    assert w == 0 || w == 1 || w == 2 || w == 3;
  }

  /** Every pass keeps the loop going, whatever the bounds are. */
  lemma GoingPass(out: seq<Pattern>, lo: nat, hi: Option<nat>, max: nat, w: nat, devlo: nat, devhi: nat,
                  nlo: nat, nhi: nat, chars: nat)
    requires Mode(max) && w <= 2 && chars == 4 && Fits(lo, max) && devlo <= devhi && devlo / 16 != devhi / 16
    requires Going(out, lo, hi, max, w, devlo, devhi)
    requires nlo == if devlo % 16 > 0 then Stepped(devlo / 16, 1, max, chars) else devlo / 16
    requires nhi == if devhi % 16 < max then Stepped(devhi / 16, -1, max, chars) else devhi / 16
    ensures Going(out + LowTuple(devlo, w, max) + HighTuple(devhi, w, max), lo, hi, max, w + 1, nlo, nhi)
  {
    GoingDisjoint(out, lo, hi, max, w, devlo, devhi);
    if Lost(out, lo, hi, max, w, devlo, devhi) {
      var a, b := LostPass(out, lo, hi, max, w, devlo, devhi, chars);
    } else if Bounded(max, w, devhi) && SafeHi(hi, max) {
      var a, b := BoundedPass(out, lo, hi, max, w, devlo, devhi, chars);
    } else if devhi % 16 >= max {
      var a := AbovePass(out, lo, hi, max, w, devlo, devhi, chars);
    } else {
      OpenLowDigit(w);
      var a, b := GapPass(out, lo, hi, max, w, devlo, devhi, chars);
    }
  }

  lemma GoingDisjoint(out: seq<Pattern>, lo: nat, hi: Option<nat>, max: nat, w: nat, devlo: nat, devhi: nat)
    requires Mode(max) && w <= 2 && devlo <= devhi && devlo / 16 != devhi / 16
    requires Going(out, lo, hi, max, w, devlo, devhi)
    ensures Disjoint(out + LowTuple(devlo, w, max) + HighTuple(devhi, w, max), max)
  {
    forall x: nat | Fits(x, max) && Covered(out, x)
      ensures Shr(x, w) < devlo || Shr(x, w) > devhi
    {
    }
    PassDisjoint(out, devlo, devhi, w, max);
  }

  lemma GoingBounds(out: seq<Pattern>, lo: nat, hi: Option<nat>, max: nat, w: nat, devlo: nat, devhi: nat)
    requires Mode(max) && w <= 4 && devlo <= devhi && Going(out, lo, hi, max, w, devlo, devhi)
    ensures devlo <= Top(max, 4 - w) || devlo == Shl(1, 4 - w)
    ensures Bounded(max, w, devhi) || (Above(hi, max, w, devhi) && (hi.Some? ==> devhi < Shl(1, 4 - w)))
  {
    hide Covered; hide WellFormed; hide Disjoint; hide Exact; hide Below; hide Beyond; hide Fits; hide Representable;
    hide Above; hide Bounded; hide Digits;
  }

  /** The prefixes a pass emits fit the digits they are printed with. */
  lemma PrefixesFit(out: seq<Pattern>, lo: nat, hi: Option<nat>, max: nat, w: nat, devlo: nat, devhi: nat)
    requires Mode(max) && w <= 3 && devlo <= devhi && Going(out, lo, hi, max, w, devlo, devhi)
    ensures devlo % 16 > 0 ==> Shr(devlo / 16, 3 - w) == 0
    ensures devhi % 16 < max ==> Shr(devhi / 16, 3 - w) == 0
    ensures w < 3 && devlo / 16 == devhi / 16 ==> Shr(devlo / 16, 3 - w) == 0
    ensures devlo <= devhi < U32
  {
    hide Going; hide Rounded; hide Digits;
    GoingBounds(out, lo, hi, max, w, devlo, devhi);
    TopBound(max, 4 - w);
    BeyondTop(devlo / 16, 3 - w);
    BeyondTop(devhi / 16, 3 - w);
    assert Shl(1, 4 - w) == 16 * Shl(1, 3 - w);
    if !Bounded(max, w, devhi) { AboveFits(hi, max, w, devhi); }
  }

  lemma AboveFits(hi: Option<nat>, max: nat, w: nat, devhi: nat)
    requires Mode(max) && w <= 3 && Above(hi, max, w, devhi)
    ensures devhi < U32
    ensures hi.None? ==> devhi % 16 == 15 && devhi / 16 >= 0xFFFF && (w < 3 ==> devhi / 16 > 0x10000)
  {
    ShrSmaller(DevHi(hi), w);
    OpenLowDigit(w);
    AllOnes(w + 1);
    if w < 3 { OpenIsHuge(w + 1); }
  }

  lemma {:induction false} ShrSmaller(x: nat, w: nat)
    ensures Shr(x, w) <= x
  {
    if w > 0 { ShrSmaller(x, w - 1); }
  }

  lemma OneMore(out: seq<Pattern>, texts: seq<string>, p: Pattern, text: string, max: nat)
    requires Printed(out, texts, max)
    requires forall x: nat :: Fits(x, max) ==> (Glob(text, HexText(x, 4)) <==> Matches(p, x) && !LosesLastDigit(p, max))
    ensures Printed(out + [p], texts + [text], max)
  {
  }

  /** The state at the head of the loop: w digits are done. */
  ghost predicate LoopState(out: seq<Pattern>, texts: seq<string>, lo: nat, hi: Option<nat>, max: nat, w: nat,
                            devlo: nat, devhi: nat)
    requires w <= 4
  {
    Mode(max) && Fits(lo, max) && |out| <= 2 * w &&
    (if w == 0 then devlo == lo && devhi == DevHi(hi) && out == [] else !FreeLastDigit(lo, hi, max)) &&
    Printed(out, texts, max) && Going(out, lo, hi, max, w, devlo, devhi) &&
    forall i :: 0 <= i < |out| ==> !LosesLastDigit(out[i], max)
  }

  /** The texts accept what the tuples do, or nothing when the last digit is lost. */
  ghost predicate TextCoversLike(texts: seq<string>, out: seq<Pattern>, lo: nat, hi: Option<nat>, max: nat) {
    forall x: nat :: Fits(x, max) ==> (TextCovers(texts, x, 4) <==> Covered(out, x) && !FreeLastDigit(lo, hi, max))
  }

  ghost predicate Compiled(out: seq<Pattern>, texts: seq<string>, lo: nat, hi: Option<nat>, max: nat) {
    |out| == |texts| <= 7 && Outcome(out, lo, hi, max) && TextCoversLike(texts, out, lo, hi, max) &&
    (TextExact(texts, lo, hi, max) <==> Representable(lo, hi, max) && !FreeLastDigit(lo, hi, max))
  }

  lemma PrintedLength(out: seq<Pattern>, texts: seq<string>, max: nat)
    requires Printed(out, texts, max)
    ensures |texts| == |out|
  {
  }

  lemma Finished(out: seq<Pattern>, texts: seq<string>, text: string, lo: nat, hi: Option<nat>, max: nat, w: nat,
                 devlo: nat, devhi: nat)
    requires w <= 3 && devlo <= devhi && (devlo / 16 == devhi / 16 || w == 3)
    requires LoopState(out, texts, lo, hi, max, w, devlo, devhi)
    requires Printed(out + [LastTuple(devlo, devhi, w, max)], texts + [text], max)
    ensures Compiled(out + [LastTuple(devlo, devhi, w, max)], texts + [text], lo, hi, max)
  {
    hide Exact; hide Disjoint; hide Going; hide Printed; hide TextExact; hide Representable; hide Digits; hide Shr;
    GoingLast(out, lo, hi, max, w, devlo, devhi);
    PrintedLength(out + [LastTuple(devlo, devhi, w, max)], texts + [text], max);
    var p := LastTuple(devlo, devhi, w, max);
    if FreeLastDigit(lo, hi, max) {
      assert w == 0 && out + [p] == [p];
    } else if w == 0 {
      OpenNotEqual(lo, hi, max, devlo, devhi);
    }
    PrintedExact(out + [p], texts + [text], lo, hi, max);
  }

  lemma OpenNotEqual(lo: nat, hi: Option<nat>, max: nat, devlo: nat, devhi: nat)
    requires lo < 0x10000 && devlo == lo && devhi == DevHi(hi) && devlo / 16 == devhi / 16
    requires !FreeLastDigit(lo, hi, max)
    ensures !LosesLastDigit(LastTuple(devlo, devhi, 0, max), max)
  {
  }

  lemma NextState(out: seq<Pattern>, texts: seq<string>, texts': seq<string>, lo: nat, hi: Option<nat>, max: nat,
                  w: nat, devlo: nat, devhi: nat, nlo: nat, nhi: nat, chars: nat)
    requires w <= 2 && devlo <= devhi && devlo / 16 != devhi / 16 && chars == 4
    requires LoopState(out, texts, lo, hi, max, w, devlo, devhi)
    requires nlo == if devlo % 16 > 0 then Stepped(devlo / 16, 1, max, chars) else devlo / 16
    requires nhi == if devhi % 16 < max then Stepped(devhi / 16, -1, max, chars) else devhi / 16
    requires Printed(out + LowTuple(devlo, w, max) + HighTuple(devhi, w, max), texts', max)
    ensures LoopState(out + LowTuple(devlo, w, max) + HighTuple(devhi, w, max), texts', lo, hi, max, w + 1, nlo, nhi)
  {
    GoingPass(out, lo, hi, max, w, devlo, devhi, nlo, nhi, chars);
    var all := out + LowTuple(devlo, w, max) + HighTuple(devhi, w, max);
    forall i | 0 <= i < |all|
      ensures !LosesLastDigit(all[i], max)
    {
      if i < |out| { assert all[i] == out[i]; }
    }
  }

  /** What the loop body needs to know about its state. */
  lemma StateFacts(out: seq<Pattern>, texts: seq<string>, lo: nat, hi: Option<nat>, max: nat, w: nat, devlo: nat,
                   devhi: nat)
    requires w <= 3 && devlo <= devhi && LoopState(out, texts, lo, hi, max, w, devlo, devhi)
    ensures (max == 9 || max == 15) && |texts| == |out| && Printed(out, texts, max)
    ensures devlo % 16 > 0 ==> Shr(devlo / 16, 3 - w) == 0
    ensures devhi % 16 < max ==> Shr(devhi / 16, 3 - w) == 0
    ensures devlo <= devhi < U32
    ensures devlo % 16 <= max
    ensures devlo / 16 == devhi / 16 || w == 3 ==>
      devlo % 16 <= (if devhi % 16 > max then max else devhi % 16) && (w < 3 ==> Shr(devlo / 16, 3 - w) == 0)
  {
    PrefixesFit(out, lo, hi, max, w, devlo, devhi);
    DigitsShr(devlo, max, 0);
    if devlo / 16 == devhi / 16 || w == 3 {
      LastOrdered(out, lo, hi, max, w, devlo, devhi);
    }
  }

  lemma Exhausted(out: seq<Pattern>, texts: seq<string>, lo: nat, hi: Option<nat>, max: nat, w: nat, devlo: nat,
                  devhi: nat)
    requires w <= 3 && devlo > devhi && LoopState(out, texts, lo, hi, max, w, devlo, devhi)
    ensures Compiled(out, texts, lo, hi, max)
  {
    GoingExit(out, lo, hi, max, w, devlo, devhi);
    PrintedExact(out, texts, lo, hi, max);
  }

  /** Compiles one table entry: from the bcdDevice bounds to tuples and alias texts. `lo` is 0 when the
      entry has no lower bound; `placeholder` is an entry whose identifying fields are all zero. */
  method DoUsbEntryMulti(lo: nat, hi: Option<nat>, placeholder: bool)
    returns (out: seq<Pattern>, texts: seq<string>, max: nat)
    requires lo < 0x10000 && (hi.Some? ==> hi.value < 0x10000)
    ensures max == if IsDecimal(lo, DevHi(hi)) then 9 else 15
    ensures placeholder ==> out == [] && texts == []
    ensures |out| == |texts| <= 7
    ensures !placeholder ==> (Exact(out, lo, hi, max) <==> Representable(lo, hi, max))
    ensures !placeholder ==> (Disjoint(out, max) <==> hi.Some? || Representable(lo, hi, max))
    ensures !placeholder ==>
      (TextExact(texts, lo, hi, max) <==> Representable(lo, hi, max) && !FreeLastDigit(lo, hi, max))
    ensures !placeholder && !Representable(lo, hi, max) ==> Remains(out, lo, hi, max)
    ensures !placeholder ==> TextCoversLike(texts, out, lo, hi, max)
  {
    out, texts := [], [];
    max := FindMode(lo, DevHi(hi));
    if !placeholder {
      Start(lo, hi, max);
      out, texts := Compile(lo, hi, max, 4);
    }
  }

  /** The interval loop; `digits` is the number of hex digits in a device version. */
  method Compile(lo: nat, hi: Option<nat>, max: nat, digits: nat) returns (out: seq<Pattern>, texts: seq<string>)
    requires digits == 4 && LoopState([], [], lo, hi, max, 0, lo, DevHi(hi))
    ensures Compiled(out, texts, lo, hi, max)
  {
    hide LoopState;
    hide Compiled;
    hide Printed;
    hide Stepped;
    hide Shr;
    out, texts := [], [];
    var devlo, devhi, ndigits := lo, DevHi(hi), 3;
    while devlo <= devhi
      invariant 0 <= ndigits <= 3 && LoopState(out, texts, lo, hi, max, 3 - ndigits, devlo, devhi)
      decreases ndigits
    {
      ghost var was, wasTexts, w, lo0, hi0 := out, texts, 3 - ndigits, devlo, devhi;
      StateFacts(out, texts, lo, hi, max, w, devlo, devhi);
      var clo, chi := devlo % 16, devhi % 16;
      if chi > max { chi := max; }
      devlo, devhi := devlo / 16, devhi / 16;
      if devlo == devhi || ndigits == 0 {
        out, texts := EmitTuple(out, texts, Pattern(devlo, ndigits, clo, chi), max);
        Finished(was, wasTexts, texts[|wasTexts|], lo, hi, max, w, lo0, hi0);
        return;
      }
      if clo > 0 {
        var prev;
        prev, devlo := IncBcd(devlo, 1, max, digits);
        out, texts := EmitTuple(out, texts, Pattern(prev, ndigits, clo, max), max);
      }
      assert out == was + LowTuple(lo0, w, max);
      if chi < max {
        var prev;
        prev, devhi := IncBcd(devhi, -1, max, digits);
        out, texts := EmitTuple(out, texts, Pattern(prev, ndigits, 0, chi), max);
      }
      assert out == was + LowTuple(lo0, w, max) + HighTuple(hi0, w, max);
      NextState(was, wasTexts, texts, lo, hi, max, w, lo0, hi0, devlo, devhi, digits);
      ndigits := ndigits - 1;
    }
    Exhausted(out, texts, lo, hi, max, 3 - ndigits, devlo, devhi);
  }

  /** Decimal, up to 0xA000: the versions from 0x9000 on are lost. */
  lemma TopBlockLost(out: seq<Pattern>, texts: seq<string>)
    requires Compiled(out, texts, 0x0000, Some(0xA000), 9)
    ensures IsDecimal(0x0000, 0xA000)
    ensures !Exact(out, 0x0000, Some(0xA000), 9) && !TextExact(texts, 0x0000, Some(0xA000), 9)
    ensures forall x: nat :: Fits(x, 9) ==> (Covered(out, x) <==> x < 0x9000)
  {
    hide Exact; hide TextExact; hide Disjoint;
    forall x: nat
      ensures Kept(0x0000, 0xA000, x) <==> x < 0x9000
    {
      KeptBelow(x);
    }
    hide Kept;
  }

  lemma KeptBelow(x: nat)
    ensures Kept(0x0000, 0xA000, x) <==> x < 0x9000
  {
    assert Shr(0xA000, 1) == 0xA00 && Shr(x, 1) == x / 16;
    assert Forced(0xA) == 9 && Forced(0xA0) == 0x90 && Forced(0xA00) == 0x900;
  }

  /** Decimal, from 0x9001 without an upper bound: rounding up carries out of the top digit. */
  lemma CarryLost(out: seq<Pattern>, texts: seq<string>)
    requires Compiled(out, texts, 0x9001, None, 9)
    ensures IsDecimal(0x9001, DevHi(None)) && !Exact(out, 0x9001, None, 9) && !Disjoint(out, 9)
  {
    assert Digits(0x9001, 9) && Digits(0x9999, 9);
    hide Exact; hide TextExact; hide Disjoint;
  }

  /** Decimal, 0x0100 to 0x0109: the tuples are right and the text is not. */
  lemma LastDigitLost(out: seq<Pattern>, texts: seq<string>)
    requires Compiled(out, texts, 0x0100, Some(0x0109), 9)
    ensures IsDecimal(0x0100, 0x0109)
    ensures Exact(out, 0x0100, Some(0x0109), 9) && !TextExact(texts, 0x0100, Some(0x0109), 9)
  {
    hide Exact; hide TextExact; hide Disjoint;
  }

  lemma LastOrdered(out: seq<Pattern>, lo: nat, hi: Option<nat>, max: nat, w: nat, devlo: nat, devhi: nat)
    requires Mode(max) && w <= 3 && devlo <= devhi && Going(out, lo, hi, max, w, devlo, devhi)
    requires devlo / 16 == devhi / 16 || w == 3
    ensures devlo % 16 <= (if devhi % 16 > max then max else devhi % 16) && devlo % 16 <= max
    ensures w == 3 || devlo / 16 == devhi / 16
  {
    if !Bounded(max, w, devhi) { AboveFits(hi, max, w, devhi); }
    TopBound(max, 4 - w);
    if w == 3 { TopAndOne(); assert Shl(1, 4 - w) == 16; }
    assert devlo % 16 <= max;
  }

  /** Prints a tuple and appends it. */
  method EmitTuple(out: seq<Pattern>, texts: seq<string>, p: Pattern, max: nat)
    returns (out': seq<Pattern>, texts': seq<string>)
    requires (max == 9 || max == 15) && p.ndigits <= 3 && p.lo <= p.hi <= max
    requires p.ndigits > 0 ==> Shr(p.prefix, p.ndigits) == 0
    requires Printed(out, texts, max)
    ensures out' == out + [p] && |texts'| == |texts| + 1 && texts' == texts + [texts'[|texts|]]
    ensures Printed(out', texts', max)
  {
    var text := DoUsbEntry(p, max);
    OneMore(out, texts, p, text, max);
    out', texts' := out + [p], texts + [text];
  }

  lemma StartLow(lo: nat, max: nat)
    requires Mode(max) && Fits(lo, max)
    ensures Rounded(lo, max, 0, lo)
  {
    FitsBelowTop(lo, max, 0);
    assert Top(max, 4) >= lo;
  }

  lemma StartHigh(h: nat, max: nat)
    requires Mode(max) && h < 0x10000 && (max == 9 ==> h > 0x9999 || Digits(h, 9))
    ensures Bounded(max, 0, h) || (max == 9 && h > 0x9999 && h > Top(max, 4))
  {
    HexDigits(h);
    if !(max == 9 && h > 0x9999) {
      FitsBelowTop(h, max, 0);
    } else {
      TopAndOne();
    }
  }

  lemma StartTracking(lo: nat, hi: Option<nat>, max: nat)
    requires Mode(max) && Rounded(lo, max, 0, lo)
    requires hi.None? || Bounded(max, 0, hi.value) || (max == 9 && hi.value > 0x9999)
    requires Top(max, 4) < Shl(1, 4) == 0x10000 && (hi.Some? ==> hi.value < 0x10000)
    requires max == 9 && hi.Some? && hi.value > 0x9999 ==> hi.value > Top(max, 4)
    ensures Tracking([], lo, hi, max, 0, lo, DevHi(hi))
  {
    forall x: nat
      ensures !Covered([], x) && Shr(x, 0) == x
    {
    }
  }

  lemma Start(lo: nat, hi: Option<nat>, max: nat)
    requires lo < 0x10000 && (hi.Some? ==> hi.value < 0x10000)
    requires max == if IsDecimal(lo, DevHi(hi)) then 9 else 15
    ensures LoopState([], [], lo, hi, max, 0, lo, DevHi(hi))
  {
    HexDigits(lo);
    StartLow(lo, max);
    TopBound(max, 4);
    assert Shl(1, 4) == 0x10000 by { TopAndOne(); }
    if hi.Some? {
      StartHigh(hi.value, max);
    }
    StartTracking(lo, hi, max);
  }
}
