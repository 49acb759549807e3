/** Bytes, byte strings and the few wrappers shared by every module. */
module Bytes {

  type byte = b: int | 0 <= b < 0x100
  type bytes = seq<byte>

  datatype Option<+T> = None | Some(value: T)

  datatype Result<+T, +E> = Ok(value: T) | Err(error: E)

  const TAB: byte := 0x09
  const NEWLINE: byte := 0x0A
  const RETURN: byte := 0x0D
  const SPACE: byte := 0x20
  const QUOTE: byte := 0x22
  const AMPERSAND: byte := 0x26
  const APOSTROPHE: byte := 0x27
  const PLUS: byte := 0x2B
  const COMMA: byte := 0x2C
  const MINUS: byte := 0x2D
  const DOT: byte := 0x2E
  const SLASH: byte := 0x2F
  const ZERO: byte := 0x30
  const NINE: byte := 0x39
  const COLON: byte := 0x3A
  const LESS: byte := 0x3C
  const GREATER: byte := 0x3E
  const UPPER_A: byte := 0x41
  const UPPER_E: byte := 0x45
  const UPPER_F: byte := 0x46
  const UPPER_Z: byte := 0x5A
  const LBRACKET: byte := 0x5B
  const BACKSLASH: byte := 0x5C
  const RBRACKET: byte := 0x5D
  const LOWER_A: byte := 0x61
  const LOWER_B: byte := 0x62
  const LOWER_E: byte := 0x65
  const LOWER_F: byte := 0x66
  const LOWER_L: byte := 0x6C
  const LOWER_N: byte := 0x6E
  const LOWER_R: byte := 0x72
  const LOWER_S: byte := 0x73
  const LOWER_T: byte := 0x74
  const LOWER_U: byte := 0x75
  const LOWER_Z: byte := 0x7A
  const LBRACE: byte := 0x7B
  const RBRACE: byte := 0x7D

  predicate IsSpace(c: byte) {
    c == SPACE || c == TAB || c == RETURN || c == NEWLINE
  }

  predicate IsDigit(c: byte) {
    ZERO <= c <= NINE
  }

  predicate IsHex(c: byte) {
    IsDigit(c) || LOWER_A <= c <= LOWER_F || UPPER_A <= c <= UPPER_F
  }

  /** The letters that may follow a backslash, other than `u`. */
  predicate IsEscapeLetter(c: byte) {
    || c == LOWER_B || c == LOWER_F || c == LOWER_N || c == LOWER_R || c == LOWER_T
    || c == BACKSLASH || c == SLASH || c == QUOTE
  }

  lemma Assoc(a: bytes, b: bytes, c: bytes)
    ensures (a + b) + c == a + (b + c)
  {
  }

  lemma Unit(a: bytes)
    ensures a + [] == a && [] + a == a
  {
  }

  lemma TakeDrop(s: bytes, n: nat)
    requires n <= |s|
    ensures s[..n] + s[n..] == s
  {
  }
}
