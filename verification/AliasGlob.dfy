/** Shell globs over hexadecimal text, the language of MODULE_ALIAS lines. */
module AliasGlob {
  import Numeral

  function HexChar(d: nat): char
    requires d < 16
  {
    Numeral.Digit(d, 'A')
  }

  /** The n low hex digits of x, most significant first, as %0nX prints them. */
  function HexText(x: nat, n: nat): (t: string)
    ensures |t| == n
  {
    Numeral.Digits(x, n, 'A')
  }

  /** Membership in a bracket expression: single characters and a-b ranges (POSIX.1-2017, Shell &
      Utilities, section 2.13.1). The sets built here are not empty and begin with a digit. */
  predicate InSet(members: string, c: char) {
    if |members| >= 3 && members[1] == '-' then (members[0] <= c <= members[2]) || InSet(members[3..], c)
    else |members| >= 1 && (members[0] == c || InSet(members[1..], c))
  }

  /** Position of the first closing bracket, or the length of the text. */
  function Close(p: string): (e: nat)
    ensures e <= |p|
  {
    if p == "" || p[0] == ']' then 0 else 1 + Close(p[1..])
  }

  /** Whether the glob p matches the whole of s. */
  predicate Glob(p: string, s: string)
    decreases |p| + |s|
  {
    if p == "" then s == ""
    else if p[0] == '*' then Glob(p[1..], s) || (s != "" && Glob(p, s[1..]))
    else if p[0] == '?' then s != "" && Glob(p[1..], s[1..])
    else if p[0] == '[' && Close(p[1..]) < |p| - 1 then
      var e := Close(p[1..]);
      s != "" && InSet(p[1..][..e], s[0]) && Glob(p[1..][e + 1..], s[1..])
    else s != "" && p[0] == s[0] && Glob(p[1..], s[1..])
  }

  lemma {:induction false} StarMatchesAll(s: string)
    ensures Glob("*", s)
  {
    if s == "" {
      assert Glob("*"[1..], "");
    } else {
      StarMatchesAll(s[1..]);
    }
  }

  predicate Plain(t: string) {
    forall i :: 0 <= i < |t| ==> t[i] != '*' && t[i] != '?' && t[i] != '[' && t[i] != ']' && t[i] != '-'
  }

  lemma {:induction false} PlainHex(x: nat, n: nat)
    ensures Plain(HexText(x, n))
  {
    if n > 0 { PlainHex(x / 16, n - 1); }
  }

  lemma {:induction false} LiteralPrefix(lit: string, rest: string, s: string, tail: string)
    requires Plain(lit) && |lit| == |s|
    ensures Glob(lit + rest, s + tail) <==> lit == s && Glob(rest, tail)
  {
    if lit == "" {
      assert lit + rest == rest && s + tail == tail;
    } else {
      assert (lit + rest)[1..] == lit[1..] + rest && (s + tail)[1..] == s[1..] + tail;
      LiteralPrefix(lit[1..], rest, s[1..], tail);
      assert lit == [lit[0]] + lit[1..] && s == [s[0]] + s[1..];
    }
  }

  lemma HexCharInjective(a: nat, b: nat)
    requires a < 16 && b < 16
    ensures HexChar(a) == HexChar(b) <==> a == b
    ensures HexChar(a) < HexChar(b) <==> a < b
  {
  }

  lemma {:induction false} CloseAt(members: string, rest: string)
    requires forall i :: 0 <= i < |members| ==> members[i] != ']'
    ensures Close(members + "]" + rest) == |members|
  {
    var p := members + "]" + rest;
    if members == "" {
      assert p[0] == ']';
    } else {
      CloseAt(members[1..], rest);
      assert p[1..] == members[1..] + "]" + rest;
    }
  }

  lemma BracketMatches(members: string, rest: string, c: char, tail: string)
    requires forall i :: 0 <= i < |members| ==> members[i] != ']'
    ensures Glob("[" + members + "]" + rest, [c] + tail) <==> InSet(members, c) && Glob(rest, tail)
  {
    var p := "[" + members + "]" + rest;
    CloseAt(members, rest);
    assert p[1..] == members + "]" + rest;
    assert p[1..][..|members|] == members && p[1..][|members| + 1..] == rest;
    assert ([c] + tail)[1..] == tail;
  }
}
