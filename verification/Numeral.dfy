/** Hexadecimal text as printf prints it: %X with upper-case letters, %x with lower-case ones. */
module Numeral {

  function Digit(d: nat, letter: char): char
    requires d < 16 && letter in {'A', 'a'}
  {
    if d < 10 then '0' + d as char else letter + (d - 10) as char
  }

  /** The n low hex digits of x, most significant first; `letter` stands for ten. */
  function Digits(x: nat, n: nat, letter: char): (t: string)
    requires letter in {'A', 'a'}
    ensures |t| == n
  {
    if n == 0 then "" else Digits(x / 16, n - 1, letter) + [Digit(x % 16, letter)]
  }
}
