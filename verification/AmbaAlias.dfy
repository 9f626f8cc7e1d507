/** The AMBA device alias of scripts/mod/file2alias.c: a masked 32-bit identifier becomes eight glob
    expressions, one for each hex digit. */
module AmbaAlias {
  import opened AliasGlob
  import opened Common

  const U32: nat := 0x1_0000_0000

  function Bit(a: nat, b: nat): nat {
    if a % 2 == 1 && b % 2 == 1 then 1 else 0
  }

  /** Bitwise and. */
  function And(a: nat, b: nat): (r: nat)
    ensures r <= a
  {
    if a == 0 then 0 else 2 * And(a / 2, b / 2) + Bit(a, b)
  }

  lemma {:induction false} AndZero(a: nat)
    ensures And(a, 0) == 0
  {
    if a > 0 { AndZero(a / 2); }
  }

  lemma AndNothing(mask: nat)
    ensures And(0, mask) == 0
  {
  }

  /** The low bit, split off from everything above it. */
  lemma AndBit(a: nat, b: nat)
    ensures And(a, b) == Bit(a, b) + 2 * And(a / 2, b / 2)
  {
    AndNothing(b / 2);
  }

  lemma AndTwoBits(a: nat, b: nat)
    ensures And(a, b) == Bit(a, b) + 2 * Bit(a / 2, b / 2) + 4 * And(a / 4, b / 4)
  {
    hide And; hide Bit;
    AndBit(a, b);
    AndBit(a / 2, b / 2);
    assert a / 2 / 2 == a / 4 && b / 2 / 2 == b / 4;
  }

  /** Four bits as a sum. */
  function Low(a: nat, b: nat): (r: nat)
    ensures r < 16
  {
    Bit(a, b) + 2 * Bit(a / 2, b / 2) + 4 * (Bit(a / 4, b / 4) + 2 * Bit(a / 8, b / 8))
  }

  lemma AndFourBits(a: nat, b: nat)
    ensures And(a, b) == Low(a, b) + 16 * And(a / 16, b / 16)
  {
    hide And; hide Bit;
    AndTwoBits(a, b);
    AndTwoBits(a / 4, b / 4);
    assert a / 4 / 2 == a / 8 && b / 4 / 2 == b / 8 && a / 4 / 4 == a / 16 && b / 4 / 4 == b / 16;
  }

  lemma BitOfDigit(a: nat, b: nat)
    ensures Bit(a % 16, b % 16) == Bit(a, b)
    ensures Bit(a % 16 / 2, b % 16 / 2) == Bit(a / 2, b / 2)
    ensures Bit(a % 16 / 4, b % 16 / 4) == Bit(a / 4, b / 4)
    ensures Bit(a % 16 / 8, b % 16 / 8) == Bit(a / 8, b / 8)
  {
    Parities(a);
    Parities(b);
  }

  lemma DropFromSixteen(x: nat)
    ensures x % 16 / 2 == x / 2 % 8 && x % 16 % 2 == x % 2
  {
    assert x == 16 * (x / 16) + x % 16;
    assert x / 2 == 8 * (x / 16) + x % 16 / 2;
  }

  lemma DropFromEight(x: nat)
    ensures x % 8 / 2 == x / 2 % 4 && x % 8 % 2 == x % 2
  {
    assert x == 8 * (x / 8) + x % 8;
    assert x / 2 == 4 * (x / 8) + x % 8 / 2;
  }

  lemma DropFromFour(x: nat)
    ensures x % 4 / 2 == x / 2 % 2 && x % 4 % 2 == x % 2
  {
    assert x == 4 * (x / 4) + x % 4;
  }

  lemma Quarter(x: nat)
    ensures x / 2 / 2 == x / 4
  {
  }

  lemma Eighth(x: nat)
    ensures x / 4 / 2 == x / 8
  {
  }

  lemma Parities(a: nat)
    ensures a % 16 % 2 == a % 2 && a % 16 / 2 % 2 == a / 2 % 2
    ensures a % 16 / 4 % 2 == a / 4 % 2 && a % 16 / 8 % 2 == a / 8 % 2
  {
    DropFromSixteen(a);
    DropFromEight(a / 2);
    DropFromFour(a / 4);
    Quarter(a);
    Eighth(a);
    Quarter(a % 16);
    Eighth(a % 16);
  }

  lemma AndDigit(a: nat, b: nat)
    ensures And(a, b) == And(a % 16, b % 16) + 16 * And(a / 16, b / 16)
  {
    hide And; hide Bit;
    AndFourBits(a, b);
    AndFourBits(a % 16, b % 16);
    AndNothing(b % 16 / 16);
    BitOfDigit(a, b);
    assert a % 16 / 16 == 0;
  }

  /** Masking a number is masking each of its digits. */
  lemma MaskByDigit(x: nat, mask: nat, id: nat)
    ensures And(x, mask) == id <==> And(x % 16, mask % 16) == id % 16 && And(x / 16, mask / 16) == id / 16
  {
    hide And;
    AndDigit(x, mask);
    Digits(And(x % 16, mask % 16), And(x / 16, mask / 16), id);
  }

  lemma Digits(low: nat, high: nat, id: nat)
    requires low < 16
    ensures low + 16 * high == id <==> low == id % 16 && high == id / 16
  {
  }

  lemma BitOfOdd(a: nat, b: nat)
    requires b % 2 == 1
    ensures Bit(a, b) == a % 2
  {
  }

  lemma BitsOfDigit(d: nat)
    requires d < 16
    ensures d == d % 2 + 2 * (d / 2 % 2) + 4 * (d / 4 % 2 + 2 * (d / 8 % 2))
  {
    var a := d / 2;
    var b := a / 2;
    var c := b / 2;
    Quarter(d);
    Eighth(d);
    assert d == 2 * a + d % 2 && a == 2 * b + a % 2 && b == 2 * c + b % 2;
    assert c < 2;
  }

  lemma AndAll(d: nat)
    requires d < 16
    ensures And(d, 15) == d
  {
    AndFourBits(d, 15);
    AndNothing(0);
    hide And; hide Bit;
    BitOfOdd(d, 15);
    BitOfOdd(d / 2, 7);
    BitOfOdd(d / 4, 3);
    BitOfOdd(d / 8, 1);
    BitsOfDigit(d);
    assert d / 16 == 0;
  }

  // ---------------------------------------------------------------- one digit

  /** The digits from i on that agree with the nibble under the mask. */
  function Agreeing(nibble: nat, mask: nat, i: nat): string
    requires i <= 16
    decreases 16 - i
  {
    if i == 16 then "" else (if And(i, mask) == nibble then [HexChar(i)] else "") + Agreeing(nibble, mask, i + 1)
  }

  lemma {:induction false} AgreeingMeans(nibble: nat, mask: nat, i: nat, d: nat)
    requires i <= 16 && d < 16
    ensures InSet(Agreeing(nibble, mask, i), HexChar(d)) <==> i <= d && And(d, mask) == nibble
    ensures forall k :: 0 <= k < |Agreeing(nibble, mask, i)| ==> '0' <= Agreeing(nibble, mask, i)[k] <= 'F'
    decreases 16 - i
  {
    hide And; hide InSet;
    if i == 16 {
      InNothing(HexChar(d));
    } else {
      AgreeingMeans(nibble, mask, i + 1, d);
      HexCharInjective(i, d);
      InSetPush(HexChar(i), Agreeing(nibble, mask, i + 1), HexChar(d));
      assert "" + Agreeing(nibble, mask, i + 1) == Agreeing(nibble, mask, i + 1);
    }
  }

  lemma InNothing(c: char)
    ensures !InSet("", c)
  {
  }

  lemma InSetPush(first: char, rest: string, c: char)
    requires forall k :: 0 <= k < |rest| ==> '0' <= rest[k]
    ensures InSet([first] + rest, c) <==> first == c || InSet(rest, c)
  {
    assert ([first] + rest)[1..] == rest;
  }

  lemma AgreeingStep(nibble: nat, mask: nat, i: nat)
    requires i < 16
    ensures Agreeing(nibble, mask, i) ==
            (if And(i, mask) == nibble then [HexChar(i)] else "") + Agreeing(nibble, mask, i + 1)
    ensures Agreeing(nibble, mask, 16) == ""
  {
  }

  function DigitText(nibble: nat, mask: nat): string
    requires nibble < 16
  {
    if mask == 0 then "?"
    else if mask == 15 then [HexChar(nibble)]
    else "[" + Agreeing(nibble, mask, 0) + "]"
  }

  /** append_nibble_mask: a free digit, the digit itself, or the set of all digits that agree. */
  method AppendNibbleMask(out: string, nibble: nat, mask: nat) returns (p: string)
    requires nibble < 16 && mask < 16
    ensures p == out + DigitText(nibble, mask)
  {
    hide And; hide Agreeing;
    if mask == 0 {
      return out + "?";
    }
    if mask == 15 {
      return out + [HexChar(nibble)];
    }
    p := out + "[";
    AgreeingStep(nibble, mask, 0);
    for i := 0 to 16
      invariant p + Agreeing(nibble, mask, i) == out + "[" + Agreeing(nibble, mask, 0)
    {
      AgreeingStep(nibble, mask, i);
      if And(i, mask) == nibble {
        p := p + [HexChar(i)];
      }
    }
    assert p + "" == p;
    p := p + "]";
    assert out + "[" + Agreeing(nibble, mask, 0) + "]" == out + ("[" + Agreeing(nibble, mask, 0) + "]");
  }

  /** The expression for one digit takes exactly the digits that agree under the mask. */
  lemma DigitMeans(nibble: nat, mask: nat, rest: string, d: nat, tail: string)
    requires nibble < 16 && mask < 16 && d < 16 && And(nibble, mask) == nibble
    ensures Glob(DigitText(nibble, mask) + rest, [HexChar(d)] + tail) <==> And(d, mask) == nibble && Glob(rest, tail)
  {
    hide And;
    if mask == 0 {
      AndZero(d);
      AndZero(nibble);
      assert ("?" + rest)[1..] == rest && ([HexChar(d)] + tail)[1..] == tail;
    } else if mask == 15 {
      AndAll(d);
      HexCharInjective(nibble, d);
      assert Plain([HexChar(nibble)]);
      LiteralPrefix([HexChar(nibble)], rest, [HexChar(d)], tail);
    } else {
      AgreeingMeans(nibble, mask, 0, d);
      BracketMatches(Agreeing(nibble, mask, 0), rest, HexChar(d), tail);
      assert "[" + Agreeing(nibble, mask, 0) + "]" + rest == DigitText(nibble, mask) + rest;
    }
  }

  // ---------------------------------------------------------------- the whole identifier

  /** The expressions for the n low digits, most significant first. */
  function IdText(id: nat, mask: nat, n: nat): string {
    if n == 0 then "" else IdText(id / 16, mask / 16, n - 1) + DigitText(id % 16, mask % 16)
  }

  /** Digit by digit, the text takes exactly the numbers that agree with the identifier under the mask. */
  lemma {:induction false} IdMeans(id: nat, mask: nat, n: nat, rest: string, x: nat, tail: string)
    requires And(id, mask) == id && Below(x, n) && Below(id, n)
    ensures Glob(IdText(id, mask, n) + rest, HexText(x, n) + tail) <==> And(x, mask) == id && Glob(rest, tail)
    decreases n
  {
    hide And; hide DigitText; hide Glob;
    if n == 0 {
      AndNothing(mask);
      assert IdText(id, mask, n) + rest == rest && HexText(x, n) + tail == tail;
    } else {
      var digit, head := DigitText(id % 16, mask % 16), HexChar(x % 16);
      MaskByDigit(id, mask, id);
      MaskByDigit(x, mask, id);
      IdMeans(id / 16, mask / 16, n - 1, digit + rest, x / 16, [head] + tail);
      DigitMeans(id % 16, mask % 16, rest, x % 16, tail);
      assert IdText(id, mask, n) + rest == IdText(id / 16, mask / 16, n - 1) + (digit + rest);
      assert HexText(x, n) + tail == HexText(x / 16, n - 1) + ([head] + tail);
    }
  }

  /** A number of n hex digits. */
  predicate Below(x: nat, n: nat) {
    if n == 0 then x == 0 else Below(x / 16, n - 1)
  }

  function Count(n: nat): nat {
    if n == 0 then 1 else 16 * Count(n - 1)
  }

  lemma {:induction false} BelowCount(x: nat, n: nat)
    ensures Below(x, n) <==> x < Count(n)
  {
    if n > 0 { BelowCount(x / 16, n - 1); }
  }

  lemma EightDigits(x: nat, n: nat)
    requires n == 8
    ensures Below(x, n) <==> x < U32
  {
    BelowCount(x, n);
    assert Count(n) == 0x100 * Count(n - 2) && Count(n - 2) == 0x100 * Count(n - 4);
    assert Count(n - 4) == 0x100 * Count(n - 6);
  }

  /** The digit of a number at a position, `(x >> (4 * k)) & 0xf`. */
  function Nibble(x: nat, k: nat): (d: nat)
    ensures d < 16
  {
    if k == 0 then x % 16 else Nibble(x / 16, k - 1)
  }

  function Upper(x: nat, k: nat): nat {
    if k == 0 then x else Upper(x / 16, k - 1)
  }

  lemma {:induction false} UpperStep(x: nat, k: nat)
    ensures Upper(x, k) / 16 == Upper(x, k + 1) && Upper(x, k) % 16 == Nibble(x, k)
  {
    if k > 0 { UpperStep(x / 16, k - 1); }
  }

  /** The loop over the digits, most significant first. */
  method EntryText(id: nat, mask: nat, digits: nat) returns (text: Option<string>)
    requires id < U32 && mask < U32 && digits == 8
    ensures text.Some? <==> And(id, mask) == id
    ensures text.Some? ==> forall x: nat :: x < U32 ==>
      (Glob(text.value, "amba:d" + HexText(x, digits)) <==> And(x, mask) == id)
  {
    hide And; hide Glob; hide HexText; hide DigitText; hide IdText;
    if And(id, mask) != id {
      return None;
    }
    var p := "amba:d";
    EmptyText(Upper(id, digits), Upper(mask, digits));
    for digit := 0 to digits
      invariant p == "amba:d" + IdText(Upper(id, digits - digit), Upper(mask, digits - digit), digit)
    {
      var k := digits - 1 - digit;
      UpperStep(id, k);
      UpperStep(mask, k);
      TextStep(Upper(id, k), Upper(mask, k), digit);
      p := AppendNibbleMask(p, Nibble(id, k), Nibble(mask, k));
    }
    text := Some(p);
    EightDigits(id, digits);
    forall x: nat | x < U32
      ensures Glob(p, "amba:d" + HexText(x, digits)) <==> And(x, mask) == id
    {
      EightDigits(x, digits);
      EntryMeans(id, mask, digits, x);
    }
  }

  /** do_amba_entry: nothing when the identifier has bits outside its mask (the compiler stops); otherwise
      text that matches exactly the devices that agree with the identifier under the mask. */
  method DoAmbaEntry(id: nat, mask: nat) returns (text: Option<string>)
    requires id < U32 && mask < U32
    ensures text.Some? <==> And(id, mask) == id
    ensures text.Some? ==> forall x: nat :: x < U32 ==>
      (Glob(text.value, "amba:d" + HexText(x, 8)) <==> And(x, mask) == id)
  {
    hide And; hide Glob; hide HexText;
    text := EntryText(id, mask, 8);
  }

  lemma EmptyText(id: nat, mask: nat)
    ensures IdText(id, mask, 0) == ""
  {
  }

  lemma TextStep(id: nat, mask: nat, n: nat)
    ensures IdText(id, mask, n + 1) == IdText(id / 16, mask / 16, n) + DigitText(id % 16, mask % 16)
  {
  }

  lemma EntryMeans(id: nat, mask: nat, n: nat, x: nat)
    requires And(id, mask) == id && Below(x, n) && Below(id, n)
    ensures Glob("amba:d" + IdText(id, mask, n), "amba:d" + HexText(x, n)) <==> And(x, mask) == id
  {
    hide And; hide IdText; hide HexText;
    IdMeans(id, mask, n, "", x, "");
    assert Glob("", "");
    assert IdText(id, mask, n) + "" == IdText(id, mask, n) && HexText(x, n) + "" == HexText(x, n);
    hide Glob;
    LiteralPrefix("amba:d", IdText(id, mask, n), "amba:d", HexText(x, n));
  }
}
