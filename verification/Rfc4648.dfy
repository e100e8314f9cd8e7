/** The base 64 encoding of section 4 of RFC 4648. */
module Rfc4648 {
  type byte = bv8

  // ----- table 1, a column for each function

  function First(value: bv24): char {
    match value
    case 0 => 'A' case 1 => 'B' case 2 => 'C' case 3 => 'D' case 4 => 'E' case 5 => 'F' case 6 => 'G' case 7 => 'H'
    case 8 => 'I' case 9 => 'J' case 10 => 'K' case 11 => 'L' case 12 => 'M' case 13 => 'N' case 14 => 'O' case _ => 'P'
  }

  function Second(value: bv24): char {
    match value
    case 16 => 'Q' case 17 => 'R' case 18 => 'S' case 19 => 'T' case 20 => 'U' case 21 => 'V' case 22 => 'W' case 23 => 'X'
    case 24 => 'Y' case 25 => 'Z' case 26 => 'a' case 27 => 'b' case 28 => 'c' case 29 => 'd' case 30 => 'e' case _ => 'f'
  }

  function Third(value: bv24): char {
    match value
    case 32 => 'g' case 33 => 'h' case 34 => 'i' case 35 => 'j' case 36 => 'k' case 37 => 'l' case 38 => 'm' case 39 => 'n'
    case 40 => 'o' case 41 => 'p' case 42 => 'q' case 43 => 'r' case 44 => 's' case 45 => 't' case 46 => 'u' case _ => 'v'
  }

  function Fourth(value: bv24): char {
    match value
    case 48 => 'w' case 49 => 'x' case 50 => 'y' case 51 => 'z' case 52 => '0' case 53 => '1' case 54 => '2' case 55 => '3'
    case 56 => '4' case 57 => '5' case 58 => '6' case 59 => '7' case 60 => '8' case 61 => '9' case 62 => '+' case _ => '/'
  }

  function Character(value: bv24): char {
    if value < 16 then First(value) else if value < 32 then Second(value) else if value < 48 then Third(value)
    else Fourth(value)
  }

  /** The 24 bits of three bytes, and the four groups of six bits in them. */
  function Bits(b0: byte, b1: byte, b2: byte): bv24 {
    (b0 as bv24 << 16) | (b1 as bv24 << 8) | b2 as bv24
  }

  function Group(n: bv24, k: nat): bv24 {
    match k case 0 => n >> 18 case 1 => (n >> 12) & 63 case 2 => (n >> 6) & 63 case _ => n & 63
  }

  function Digit(n: bv24, k: nat): char {
    Character(Group(n, k))
  }

  /** The text, with one or two pads if the last group of bytes is not full. */
  function Text(s: seq<byte>): string {
    if s == [] then ""
    else if |s| == 1 then
      var n := Bits(s[0], 0, 0);
      [Digit(n, 0), Digit(n, 1), '=', '=']
    else if |s| == 2 then
      var n := Bits(s[0], s[1], 0);
      [Digit(n, 0), Digit(n, 1), Digit(n, 2), '=']
    else
      var n := Bits(s[0], s[1], s[2]);
      [Digit(n, 0), Digit(n, 1), Digit(n, 2), Digit(n, 3)] + Text(s[3..])
  }

  /** In lines of 76 characters, as section 6.8 of RFC 2045 limits them. */
  function Lines(s: seq<byte>, eol: string): string {
    if |s| <= 57 then Text(s) else Text(s[..57]) + eol + Lines(s[57..], eol)
  }
}
