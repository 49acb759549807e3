/**
 The string printer and parser of the JSON package: `encodeState.string` (common/json/encode.go) and
 `unquoteBytes` (common/json/decode.go).
 */
module Quote {
  import opened Bytes
  import opened Grammar
  import opened Utf8

  // ---------- hexadecimal ----------

  /** The table `hex`. */
  function HexDigit(n: int): byte
    requires 0 <= n < 16
  {
    if n < 10 then ZERO + n else LOWER_A + (n - 10)
  }

  function HexValue(c: byte): (n: int)
    requires IsHex(c)
    ensures 0 <= n < 16
  {
    if IsDigit(c) then c - ZERO else if c >= LOWER_A then c - LOWER_A + 10 else c - UPPER_A + 10
  }

  /** `\u00` and the two digits of `c`. */
  function EscapeByte(c: byte): bytes {
    [BACKSLASH, LOWER_U, ZERO, ZERO, HexDigit(c / 16), HexDigit(c % 16)]
  }

  /** `\u202` and one digit. */
  function EscapeSeparator(n: int): bytes
    requires 0 <= n < 16
  {
    [BACKSLASH, LOWER_U, 0x32, ZERO, 0x32, HexDigit(n)]
  }

  const ESCAPED_ERROR: bytes := [BACKSLASH, LOWER_U, LOWER_F, LOWER_F, LOWER_F, 0x64]

  // ---------- printing ----------

  /** A byte below 0x80 inside quotes. */
  function QuoteAscii(b: byte): bytes {
    if SPACE <= b && b != BACKSLASH && b != QUOTE && b != LESS && b != GREATER && b != AMPERSAND then [b]
    else if b == BACKSLASH || b == QUOTE then [BACKSLASH, b]
    else if b == NEWLINE then [BACKSLASH, LOWER_N]
    else if b == RETURN then [BACKSLASH, LOWER_R]
    else EscapeByte(b)
  }

  predicate IsSeparator(r: int) {
    r == 0x2028 || r == 0x2029
  }

  /** The first rune of `s` inside quotes. */
  function QuoteRune(s: bytes): bytes
    requires s != []
  {
    var d := DecodeRune(s);
    if s[0] < RUNE_SELF then QuoteAscii(s[0])
    else if !StartsWell(s) then ESCAPED_ERROR
    else if IsSeparator(d.rune) then EscapeSeparator(d.rune % 16)
    else s[..d.size]
  }

  function QuoteBody(s: bytes): bytes
    decreases |s|
  {
    if s == [] then [] else QuoteRune(s) + QuoteBody(s[DecodeRune(s).size..])
  }

  function Quoted(s: bytes): bytes {
    [QUOTE] + QuoteBody(s) + [QUOTE]
  }

  // ---------- parsing ----------

  /** The value of a leading `\uXXXX`, or -1. */
  function GetU4(s: bytes): (r: int)
    ensures -1 <= r < 0x10000
  {
    if |s| < 6 || s[0] != BACKSLASH || s[1] != LOWER_U then -1
    else if !(IsHex(s[2]) && IsHex(s[3]) && IsHex(s[4]) && IsHex(s[5])) then -1
    else ((HexValue(s[2]) * 16 + HexValue(s[3])) * 16 + HexValue(s[4])) * 16 + HexValue(s[5])
  }

  /** The byte a one-letter escape stands for; the parser also lets an apostrophe through. */
  function Unescape(c: byte): Option<byte> {
    if c == QUOTE || c == BACKSLASH || c == SLASH || c == APOSTROPHE then Some(c)
    else if c == LOWER_B then Some(0x08)
    else if c == LOWER_F then Some(0x0C)
    else if c == LOWER_N then Some(NEWLINE)
    else if c == LOWER_R then Some(RETURN)
    else if c == LOWER_T then Some(TAB)
    else None
  }

  /** One character of a string body: the bytes it stands for and the bytes it takes. */
  datatype Piece = Piece(out: bytes, size: nat)

  /** A `\uXXXX` escape, or two that form a surrogate pair. */
  function UnquoteU(s: bytes): (p: Option<Piece>)
    ensures p.Some? ==> 6 <= p.value.size <= |s|
  {
    var rr := GetU4(s);
    if rr < 0 then None
    else if !IsSurrogate(rr) then Some(Piece(EncodeRune(rr), 6))
    else
      var dec := DecodePair(rr, GetU4(s[6..]));
      if dec != RUNE_ERROR then Some(Piece(EncodeRune(dec), 12)) else Some(Piece(EncodeRune(RUNE_ERROR), 6))
  }

  function UnquotePiece(s: bytes): (p: Option<Piece>)
    requires s != []
    ensures p.Some? ==> 1 <= p.value.size <= |s|
  {
    if s[0] == BACKSLASH then
      if |s| == 1 then None
      else if s[1] == LOWER_U then UnquoteU(s)
      else if Unescape(s[1]).Some? then Some(Piece([Unescape(s[1]).value], 2))
      else None
    else if s[0] == QUOTE || s[0] < SPACE then None
    else Some(Piece(EncodeRune(DecodeRune(s).rune), DecodeRune(s).size))
  }

  /** The meaning of a string body, if it has one. */
  function UnquoteBody(s: bytes): Option<bytes>
    decreases |s|
  {
    if s == [] then Some([])
    else match UnquotePiece(s)
      case None => None
      case Some(p) => Prepend(p.out, UnquoteBody(s[p.size..]))
  }

  function Prepend(head: bytes, tail: Option<bytes>): Option<bytes> {
    match tail
    case None => None
    case Some(t) => Some(head + t)
  }

  function Unquoted(s: bytes): Option<bytes> {
    if |s| < 2 || s[0] != QUOTE || s[|s| - 1] != QUOTE then None else UnquoteBody(s[1..|s| - 1])
  }

  // ---------- the parser undoes the printer ----------

  lemma HexRound(n: int)
    requires 0 <= n < 16
    ensures IsHex(HexDigit(n)) && HexValue(HexDigit(n)) == n
  {
  }

  lemma UnquoteEscapeByte(c: byte, rest: bytes)
    requires c < RUNE_SELF
    ensures UnquotePiece(EscapeByte(c) + rest) == Some(Piece([c], 6))
  {
    HexRound(c / 16);
    HexRound(c % 16);
  }

  lemma UnquoteEscapeSeparator(r: int, rest: bytes)
    requires IsSeparator(r)
    ensures UnquotePiece(EscapeSeparator(r % 16) + rest) == Some(Piece(EncodeRune(r), 6))
  {
    HexRound(r % 16);
  }

  /** What the printer writes for the first rune of `s`, the parser reads back as that rune. */
  lemma UnquoteQuoteRune(s: bytes, rest: bytes)
    requires s != []
    ensures UnquotePiece(QuoteRune(s) + rest)
            == Some(Piece(EncodeRune(DecodeRune(s).rune), |QuoteRune(s)|))
  {
    var d := DecodeRune(s);
    if s[0] < RUNE_SELF {
      if |QuoteRune(s)| == 6 {
        UnquoteEscapeByte(s[0], rest);
      }
    } else if StartsWell(s) {
      EncodeOfDecode(s);
      if IsSeparator(d.rune) {
        UnquoteEscapeSeparator(d.rune, rest);
      } else {
        DecodeOfEncode(d.rune, rest);
        assert (s[..d.size] + rest)[0] == s[0];
      }
    }
  }

  lemma {:induction false} UnquoteQuoteBody(s: bytes)
    ensures UnquoteBody(QuoteBody(s)) == Some(Coerce(s))
    decreases |s|
  {
    if s != [] {
      var rest := s[DecodeRune(s).size..];
      UnquoteQuoteRune(s, QuoteBody(rest));
      UnquoteQuoteBody(rest);
      assert (QuoteRune(s) + QuoteBody(rest))[|QuoteRune(s)|..] == QuoteBody(rest);
    }
  }

  /** Quoting then unquoting any byte string gives it back with malformed UTF-8 replaced. */
  lemma RoundTrip(s: bytes)
    ensures Unquoted(Quoted(s)) == Some(Coerce(s))
    ensures Unquoted(Quoted(s)) == Some(s) <==> WellFormed(s)
  {
    UnquoteQuoteBody(s);
    CoerceKeeps(s);
    assert Quoted(s)[1..|Quoted(s)| - 1] == QuoteBody(s);
  }

  // ---------- what strings can mean ----------

  /** One character of a body stands for one scalar value: surrogates and malformed bytes turn into U+FFFD. */
  lemma PieceIsScalar(s: bytes)
    requires s != [] && UnquotePiece(s).Some?
    ensures exists r :: IsScalar(r) && UnquotePiece(s).value.out == EncodeRune(r)
  {
    var out := UnquotePiece(s).value.out;
    if s[0] != BACKSLASH {
      if StartsWell(s) {
        EncodeOfDecode(s);
      }
      assert out == EncodeRune(DecodeRune(s).rune);
    } else if s[1] != LOWER_U {
      assert out == EncodeRune(out[0]);
    } else {
      var rr := GetU4(s);
      var dec := DecodePair(rr, GetU4(s[6..]));
      assert out == EncodeRune(rr) || out == EncodeRune(dec) || out == EncodeRune(RUNE_ERROR);
    }
  }

  lemma EncodeThenWellFormed(r: int, t: bytes)
    requires IsScalar(r) && WellFormed(t)
    ensures WellFormed(EncodeRune(r) + t)
  {
    hide IsScalar, EncodeRune;
    DecodeOfEncode(r, t);
    assert (EncodeRune(r) + t)[|EncodeRune(r)|..] == t;
  }

  lemma {:induction false} UnquoteBodyWellFormed(s: bytes)
    requires UnquoteBody(s).Some?
    ensures WellFormed(UnquoteBody(s).value)
    decreases |s|
  {
    hide UnquotePiece, WellFormed, IsScalar, EncodeRune;
    if s == [] {
      EmptyWellFormed();
    } else {
      var p := UnquotePiece(s).value;
      UnquoteBodyWellFormed(s[p.size..]);
      PieceIsScalar(s);
      var r :| IsScalar(r) && p.out == EncodeRune(r);
      EncodeThenWellFormed(r, UnquoteBody(s[p.size..]).value);
    }
  }

  lemma EmptyWellFormed()
    ensures WellFormed([])
  {
  }

  /** Strings mean well-formed UTF-8, whatever they are written with, and all of it: printing a meaning keeps it. */
  lemma UnquotedWellFormed(t: bytes)
    ensures WellFormed(t) <==> exists s :: IsString(s) && Unquoted(s) == Some(t)
    ensures forall s | Unquoted(s) == Some(t) :: Unquoted(Quoted(t)) == Some(t)
  {
    hide WellFormed, UnquoteBody, IsString, Quoted, Coerce;
    RoundTrip(t);
    QuotedIsString(t);
    forall s | Unquoted(s) == Some(t) ensures WellFormed(t) {
      UnquoteBodyWellFormed(s[1..|s| - 1]);
    }
  }

  // ---------- the printer and the grammar ----------

  lemma {:induction false} SkipHigh(s: bytes, n: nat)
    requires n <= |s| && forall i | 0 <= i < n :: s[i] >= RUNE_SELF
    ensures IsStringBody(s) <==> IsStringBody(s[n..])
    decreases n
  {
    if n != 0 {
      assert s[1..][n - 1..] == s[n..];
      SkipHigh(s[1..], n - 1);
    }
  }

  lemma HighBytes(s: bytes)
    requires s != [] && s[0] >= RUNE_SELF
    ensures forall i | 0 <= i < DecodeRune(s).size :: s[i] >= RUNE_SELF
  {
  }

  /** A piece of a string body parses, and leaves a string body. */
  lemma PieceOfBody(s: bytes)
    requires s != [] && IsStringBody(s)
    ensures UnquotePiece(s).Some? && IsStringBody(s[UnquotePiece(s).value.size..])
  {
    if s[0] == BACKSLASH {
      if s[1] == LOWER_U && IsSurrogate(GetU4(s)) && GetU4(s[6..]) >= 0 {
        assert s[6..][6..] == s[12..];
      }
    } else if s[0] >= RUNE_SELF {
      HighBytes(s);
      SkipHigh(s, DecodeRune(s).size);
    }
  }

  lemma {:induction false} BodyUnquotes(s: bytes)
    requires IsStringBody(s)
    ensures UnquoteBody(s).Some?
    decreases |s|
  {
    if s != [] {
      PieceOfBody(s);
      BodyUnquotes(s[UnquotePiece(s).value.size..]);
    }
  }

  /** Every string of the grammar has a meaning. */
  lemma StringUnquotes(s: bytes)
    requires IsString(s)
    ensures Unquoted(s).Some?
  {
    BodyUnquotes(s[1..|s| - 1]);
  }

  lemma QuoteRuneIsBody(s: bytes, rest: bytes)
    requires s != [] && IsStringBody(rest)
    ensures IsStringBody(QuoteRune(s) + rest)
  {
    var q := QuoteRune(s);
    if s[0] >= RUNE_SELF && StartsWell(s) && !IsSeparator(DecodeRune(s).rune) {
      HighBytes(s);
      SkipHigh(q + rest, |q|);
    } else if |q| == 6 {
      assert forall n | 0 <= n < 16 :: IsHex(HexDigit(n));
    }
    assert (q + rest)[|q|..] == rest;
  }

  /** What the printer writes is a string of the grammar. */
  lemma {:induction false} QuoteBodyIsBody(s: bytes)
    ensures IsStringBody(QuoteBody(s))
    decreases |s|
  {
    if s != [] {
      var rest := s[DecodeRune(s).size..];
      QuoteBodyIsBody(rest);
      QuoteRuneIsBody(s, QuoteBody(rest));
    }
  }

  lemma QuotedIsString(s: bytes)
    ensures IsString(Quoted(s))
  {
    QuoteBodyIsBody(s);
    assert Quoted(s)[1..|Quoted(s)| - 1] == QuoteBody(s);
  }
}
