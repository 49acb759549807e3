/** UTF-8 as section 4 of RFC 3629 defines it, and the surrogate pairs of section 2.2 of RFC 2781. */
module Utf8 {
  import opened Bytes

  const RUNE_SELF := 0x80
  const RUNE_ERROR := 0xFFFD
  const MAX_RUNE := 0x10FFFF

  predicate IsSurrogate(r: int) {
    0xD800 <= r < 0xE000
  }

  /** A Unicode scalar value. */
  predicate IsScalar(r: int) {
    0 <= r <= MAX_RUNE && !IsSurrogate(r)
  }

  predicate IsTail(c: byte) {
    0x80 <= c <= 0xBF
  }

  // ---------- encoding ----------

  /** Anything that is not a scalar value is written as U+FFFD. */
  function EncodeRune(r: int): (s: bytes)
    ensures 1 <= |s| <= 4
  {
    if !IsScalar(r) then [0xEF, 0xBF, 0xBD]
    else if r < 0x80 then [r]
    else if r < 0x800 then [0xC0 + High(r), 0x80 + Low(r)]
    else if r < 0x10000 then [0xE0 + High(High(r)), 0x80 + Low(High(r)), 0x80 + Low(r)]
    else [0xF0 + High(High(High(r))), 0x80 + Low(High(High(r))), 0x80 + Low(High(r)), 0x80 + Low(r)]
  }

  /** The last six bits, and the others. */
  function Low(r: int): (x: int)
    ensures 0 <= x < 0x40
  {
    r % 0x40
  }

  function High(r: int): (x: int)
    ensures x * 0x40 + Low(r) == r
  {
    r / 0x40
  }

  function Join(high: int, low: int): int {
    high * 0x40 + low
  }

  lemma JoinSplits(high: int, low: int)
    requires 0 <= low < 0x40
    ensures High(Join(high, low)) == high && Low(Join(high, low)) == low
    ensures Join(high, low) == high * 0x40 + low
  {
  }

  // ---------- decoding ----------

  /** The range of the second byte of a sequence, by its first. */
  predicate SecondFits(first: byte, second: byte) {
    if first == 0xE0 then 0xA0 <= second <= 0xBF
    else if first == 0xED then 0x80 <= second <= 0x9F
    else if first == 0xF0 then 0x90 <= second <= 0xBF
    else if first == 0xF4 then 0x80 <= second <= 0x8F
    else IsTail(second)
  }

  /** How long the sequence that `first` opens must be; zero when no sequence starts so. */
  function Need(first: byte): nat {
    if first < 0x80 then 1
    else if first < 0xC2 then 0
    else if first < 0xE0 then 2
    else if first < 0xF0 then 3
    else if first < 0xF5 then 4
    else 0
  }

  /** `s` starts with the UTF-8 form of a scalar value. */
  predicate StartsWell(s: bytes) {
    && s != []
    && var n := Need(s[0]);
    && 0 < n <= |s|
    && (n >= 2 ==> SecondFits(s[0], s[1]))
    && (n >= 3 ==> IsTail(s[2]))
    && (n >= 4 ==> IsTail(s[3]))
  }

  datatype Decoded = Decoded(rune: int, size: nat)

  /** The bits a sequence carries. */
  function Bits(s: bytes): int
    requires StartsWell(s)
  {
    var n, a: int := Need(s[0]), s[0];
    if n == 1 then a
    else
      var b: int := s[1];
      if n == 2 then Join(a - 0xC0, b - 0x80)
      else
        var c: int := s[2];
        if n == 3 then Join(Join(a - 0xE0, b - 0x80), c - 0x80)
        else
          var d: int := s[3];
          Join(Join(Join(a - 0xF0, b - 0x80), c - 0x80), d - 0x80)
  }

  /** The first rune of `s`; U+FFFD of size one when `s` does not start with well-formed UTF-8. */
  function DecodeRune(s: bytes): (d: Decoded)
    requires s != []
    ensures 1 <= d.size <= |s| && d.size <= 4
  {
    if StartsWell(s) then Decoded(Bits(s), Need(s[0])) else Decoded(RUNE_ERROR, 1)
  }

  /** Decoding a well-formed start gives the scalar value whose encoding it is. */
  lemma EncodeOfDecode(s: bytes)
    requires StartsWell(s)
    ensures IsScalar(DecodeRune(s).rune) && EncodeRune(DecodeRune(s).rune) == s[..DecodeRune(s).size]
  {
    hide IsScalar, EncodeRune, Bits;
    var n := Need(s[0]);
    if n == 1 {
      EncodeOfDecode1(s);
    } else if n == 2 {
      EncodeOfDecode2(s);
    } else if n == 3 {
      EncodeOfDecode3(s);
    } else {
      EncodeOfDecode4(s);
    }
  }

  lemma EncodeOfDecode1(s: bytes)
    requires StartsWell(s) && Need(s[0]) == 1
    ensures IsScalar(Bits(s)) && EncodeRune(Bits(s)) == s[..1]
  {
  }

  lemma EncodeOfDecode2(s: bytes)
    requires StartsWell(s) && Need(s[0]) == 2
    ensures IsScalar(Bits(s)) && EncodeRune(Bits(s)) == s[..2]
  {
    EncodeTwo(s[0] - 0xC0, s[1] - 0x80);
    TwoBytes(s);
  }

  lemma TwoBytes(s: bytes)
    requires StartsWell(s) && Need(s[0]) == 2
    ensures Bits(s) == Join(s[0] - 0xC0, s[1] - 0x80) && s[..2] == [s[0], s[1]]
  {
    hide Join;
  }

  lemma EncodeTwo(a: int, b: int)
    requires 2 <= a < 0x20 && 0 <= b < 0x40
    ensures var r := Join(a, b); IsScalar(r) && EncodeRune(r) == [0xC0 + a, 0x80 + b]
  {
    hide Join, High, Low;
    JoinSplits(a, b);
  }

  lemma EncodeOfDecode3(s: bytes)
    requires StartsWell(s) && Need(s[0]) == 3
    ensures IsScalar(Bits(s)) && EncodeRune(Bits(s)) == s[..3]
  {
    EncodeThree(s[0] - 0xE0, s[1] - 0x80, s[2] - 0x80);
    ThreeBytes(s);
  }

  lemma ThreeBytes(s: bytes)
    requires StartsWell(s) && Need(s[0]) == 3
    ensures Bits(s) == Join(Join(s[0] - 0xE0, s[1] - 0x80), s[2] - 0x80) && s[..3] == [s[0], s[1], s[2]]
  {
    hide Join;
  }

  lemma EncodeThree(a: int, b: int, c: int)
    requires 0 <= a < 0x10 && 0 <= b < 0x40 && 0 <= c < 0x40
    requires (a == 0 ==> b >= 0x20) && (a == 0xD ==> b < 0x20)
    ensures var r := Join(Join(a, b), c); IsScalar(r) && EncodeRune(r) == [0xE0 + a, 0x80 + b, 0x80 + c]
  {
    hide Join, High, Low;
    JoinSplits(a, b);
    JoinSplits(Join(a, b), c);
  }

  lemma EncodeOfDecode4(s: bytes)
    requires StartsWell(s) && Need(s[0]) == 4
    ensures IsScalar(Bits(s)) && EncodeRune(Bits(s)) == s[..4]
  {
    EncodeFour(s[0] - 0xF0, s[1] - 0x80, s[2] - 0x80, s[3] - 0x80);
  }

  lemma EncodeFour(a: int, b: int, c: int, d: int)
    requires 0 <= a <= 4 && 0 <= b < 0x40 && 0 <= c < 0x40 && 0 <= d < 0x40
    requires (a == 0 ==> b >= 0x10) && (a == 4 ==> b < 0x10)
    ensures var r := Join(Join(Join(a, b), c), d);
            IsScalar(r) && EncodeRune(r) == [0xF0 + a, 0x80 + b, 0x80 + c, 0x80 + d]
  {
    hide Join, High, Low;
    JoinSplits(a, b);
    JoinSplits(Join(a, b), c);
    JoinSplits(Join(Join(a, b), c), d);
  }

  /** The encoding of a scalar value decodes to it, whatever follows. */
  lemma DecodeOfEncode(r: int, rest: bytes)
    requires IsScalar(r)
    ensures StartsWell(EncodeRune(r) + rest)
    ensures DecodeRune(EncodeRune(r) + rest) == Decoded(r, |EncodeRune(r)|)
  {
    var s := EncodeRune(r) + rest;
    assert forall i | 0 <= i < |EncodeRune(r)| :: s[i] == EncodeRune(r)[i];
  }

  // ---------- whole strings ----------

  predicate WellFormed(s: bytes) {
    s == [] || (StartsWell(s) && WellFormed(s[Need(s[0])..]))
  }

  /** Every byte that belongs to no well-formed sequence replaced by U+FFFD. */
  function Coerce(s: bytes): bytes
    decreases |s|
  {
    if s == [] then []
    else EncodeRune(DecodeRune(s).rune) + Coerce(s[DecodeRune(s).size..])
  }

  lemma {:induction false} CoerceGrows(s: bytes)
    ensures |Coerce(s)| >= |s|
    ensures !WellFormed(s) ==> |Coerce(s)| > |s|
    decreases |s|
  {
    if s != [] {
      CoerceGrows(s[DecodeRune(s).size..]);
      if StartsWell(s) {
        EncodeOfDecode(s);
      }
    }
  }

  lemma WellFormedCons(s: bytes)
    requires s != [] && WellFormed(s)
    ensures var d := DecodeRune(s);
            EncodeRune(d.rune) == s[..d.size] && WellFormed(s[d.size..])
            && Coerce(s) == s[..d.size] + Coerce(s[d.size..])
  {
    EncodeOfDecode(s);
  }

  lemma {:induction false} CoerceOfWellFormed(s: bytes)
    requires WellFormed(s)
    ensures Coerce(s) == s
    decreases |s|
  {
    if s != [] {
      WellFormedCons(s);
      hide *;
      var n := DecodeRune(s).size;
      TakeDrop(s, n);
      CoerceOfWellFormed(s[n..]);
    }
  }

  /** Coercion leaves exactly the well-formed strings alone. */
  lemma CoerceKeeps(s: bytes)
    ensures Coerce(s) == s <==> WellFormed(s)
  {
    hide *;
    if WellFormed(s) {
      CoerceOfWellFormed(s);
    } else {
      CoerceGrows(s);
    }
  }

  /** Its result is always well formed. */
  lemma {:induction false} CoerceWellFormed(s: bytes)
    ensures WellFormed(Coerce(s))
    decreases |s|
  {
    if s != [] {
      var d := DecodeRune(s);
      var tail := Coerce(s[d.size..]);
      CoerceWellFormed(s[d.size..]);
      if StartsWell(s) {
        EncodeOfDecode(s);
      }
      DecodeOfEncode(d.rune, tail);
      assert (EncodeRune(d.rune) + tail)[|EncodeRune(d.rune)|..] == tail;
    }
  }

  // ---------- surrogate pairs ----------

  /** The scalar value of a surrogate pair; U+FFFD when the two do not form one. */
  function DecodePair(r1: int, r2: int): (r: int)
    ensures IsScalar(r)
  {
    if 0xD800 <= r1 < 0xDC00 && 0xDC00 <= r2 < 0xE000
    then (r1 - 0xD800) * 0x400 + (r2 - 0xDC00) + 0x10000
    else RUNE_ERROR
  }
}
