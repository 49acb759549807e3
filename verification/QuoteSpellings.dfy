/** The escapes of JSON strings spelled out: what each stands for, and what the printer writes for each character. */
module QuoteSpellings {
  import opened Bytes
  import opened Utf8
  import opened Quote

  // ---------- what escapes stand for ----------

  /** What the body `e + rest` means when `e` stands for `out`. */
  ghost predicate StandsFor(e: bytes, out: bytes) {
    forall rest :: UnquoteBody(e + rest) == Prepend(out, UnquoteBody(rest))
  }

  lemma PieceStandsFor(e: bytes, out: bytes, rest: bytes)
    requires e != [] && UnquotePiece(e + rest) == Some(Piece(out, |e|))
    ensures UnquoteBody(e + rest) == Prepend(out, UnquoteBody(rest))
  {
    hide UnquotePiece;
    assert (e + rest)[|e|..] == rest;
  }

  function Letter(c: char): bytes
    requires c < '\U{80}'
  {
    ['\\' as int, c as int]
  }

  /** The escapes of one letter. */
  lemma LetterEscapes()
    ensures StandsFor(Letter('b'), [0x08]) && StandsFor(Letter('f'), [0x0C]) && StandsFor(Letter('n'), [0x0A])
    ensures StandsFor(Letter('r'), [0x0D]) && StandsFor(Letter('t'), [0x09]) && StandsFor(Letter('/'), [0x2F])
    ensures StandsFor(Letter('"'), [0x22]) && StandsFor(Letter('\\'), [0x5C]) && StandsFor(Letter('\''), [0x27])
  {
    LetterStandsFor('\'', 0x27);
    LetterStandsFor('b', 0x08);
    LetterStandsFor('f', 0x0C);
    LetterStandsFor('n', 0x0A);
    LetterStandsFor('r', 0x0D);
    LetterStandsFor('t', 0x09);
    LetterStandsFor('/', 0x2F);
    LetterStandsFor('"', 0x22);
    LetterStandsFor('\\', 0x5C);
  }

  lemma LetterStandsFor(letter: char, c: byte)
    requires letter < '\U{80}' && letter != 'u' && Unescape(letter as int) == Some(c)
    ensures StandsFor(Letter(letter), [c])
  {
    forall rest ensures UnquoteBody(Letter(letter) + rest) == Prepend([c], UnquoteBody(rest)) {
      PieceStandsFor(Letter(letter), [c], rest);
    }
  }

  /** No other letter is an escape, and a backslash at the end is none. */
  lemma NoOtherEscape(c: byte, rest: bytes)
    requires c != 'b' as int && c != 'f' as int && c != 'n' as int && c != 'r' as int && c != 't' as int
    requires c != '/' as int && c != '"' as int && c != '\\' as int && c != '\'' as int && c != 'u' as int
    ensures UnquoteBody(['\\' as int, c] + rest) == None && UnquoteBody(['\\' as int]) == None
  {
  }

  /** Any other ASCII character stands for itself; quotes and control characters stand for nothing. */
  lemma PlainStandsFor(c: byte)
    requires c < 0x80 && c != '\\' as int
    ensures 0x20 <= c && c != '"' as int ==> StandsFor([c], [c])
    ensures c < 0x20 || c == '"' as int ==> forall rest :: UnquoteBody([c] + rest) == None
  {
    if 0x20 <= c && c != '"' as int {
      forall rest ensures UnquoteBody([c] + rest) == Prepend([c], UnquoteBody(rest)) {
        PieceStandsFor([c], [c], rest);
      }
    }
  }

  /** Beyond ASCII a well-formed character stands for itself, and every malformed byte for U+FFFD. */
  lemma BeyondStandsFor(s: bytes)
    requires s != [] && s[0] >= 0x80
    ensures StartsWell(s) ==> UnquoteBody(s) == Prepend(s[..Need(s[0])], UnquoteBody(s[Need(s[0])..]))
    ensures !StartsWell(s) ==> UnquoteBody(s) == Prepend([0xEF, 0xBF, 0xBD], UnquoteBody(s[1..]))
  {
    BeyondPiece(s);
    hide UnquotePiece, StartsWell, Need;
  }

  lemma BeyondPiece(s: bytes)
    requires s != [] && s[0] >= 0x80
    ensures UnquotePiece(s)
         == Some(if StartsWell(s) then Piece(s[..Need(s[0])], Need(s[0])) else Piece([0xEF, 0xBF, 0xBD], 1))
  {
    if StartsWell(s) {
      EncodeOfDecode(s);
      hide EncodeRune, Bits;
    }
  }

  /** `c` is the digit `n` in either case. */
  predicate IsDigitOf(c: byte, n: int) {
    if n < 10 then c == '0' as int + n else c == 'a' as int + n - 10 || c == 'A' as int + n - 10
  }

  /** `e` is a backslash, a `u` and the four digits of `unit`. */
  predicate IsUnitEscape(e: bytes, unit: int) {
    && |e| == 6 && e[0] == '\\' as int && e[1] == 'u' as int && 0 <= unit < 0x10000
    && IsDigitOf(e[2], unit / 0x1000) && IsDigitOf(e[3], unit / 0x100 % 0x10)
    && IsDigitOf(e[4], unit / 0x10 % 0x10) && IsDigitOf(e[5], unit % 0x10)
  }

  lemma DigitValue(c: byte, n: int)
    requires 0 <= n < 16 && IsDigitOf(c, n)
    ensures IsHex(c) && HexValue(c) == n
  {
  }

  lemma UnitValue(e: bytes, unit: int, rest: bytes)
    requires IsUnitEscape(e, unit)
    ensures GetU4(e + rest) == unit
  {
    DigitValue(e[2], unit / 0x1000);
    DigitValue(e[3], unit / 0x100 % 0x10);
    DigitValue(e[4], unit / 0x10 % 0x10);
    DigitValue(e[5], unit % 0x10);
    Digits(unit);
    hide HexValue, IsHex, IsDigitOf;
  }

  lemma Digits(unit: int)
    requires 0 <= unit < 0x10000
    ensures ((unit / 0x1000 * 16 + unit / 0x100 % 0x10) * 16 + unit / 0x10 % 0x10) * 16 + unit % 0x10 == unit
    ensures 0 <= unit / 0x1000 < 16 && 0 <= unit / 0x100 % 0x10 < 16
  {
  }

  /** Four digits stand for the character of that number, unless it is half of a pair. */
  lemma UnitEscape(e: bytes, unit: int)
    requires IsUnitEscape(e, unit) && !(0xD800 <= unit < 0xE000)
    ensures StandsFor(e, EncodeRune(unit))
  {
    forall rest ensures UnquoteBody(e + rest) == Prepend(EncodeRune(unit), UnquoteBody(rest)) {
      UnitValue(e, unit, rest);
      hide GetU4, EncodeRune;
      PieceStandsFor(e, EncodeRune(unit), rest);
    }
  }

  function Unit4(a: char, b: char, c: char, d: char): bytes
    requires a < '\U{80}' && b < '\U{80}' && c < '\U{80}' && d < '\U{80}'
  {
    ['\\' as int, 'u' as int, a as int, b as int, c as int, d as int]
  }

  /** Two escapes may be put for each other. */
  ghost predicate Same(d: bytes, e: bytes) {
    forall rest :: UnquoteBody(d + rest) == UnquoteBody(e + rest)
  }

  /** The letters are short for four digits. */
  lemma LettersAreUnits()
    ensures Same(Letter('b'), Unit4('0', '0', '0', '8')) && Same(Letter('t'), Unit4('0', '0', '0', '9'))
    ensures Same(Letter('n'), Unit4('0', '0', '0', 'a')) && Same(Letter('n'), Unit4('0', '0', '0', 'A'))
    ensures Same(Letter('f'), Unit4('0', '0', '0', 'c')) && Same(Letter('f'), Unit4('0', '0', '0', 'C'))
    ensures Same(Letter('r'), Unit4('0', '0', '0', 'd')) && Same(Letter('r'), Unit4('0', '0', '0', 'D'))
    ensures Same(Letter('"'), Unit4('0', '0', '2', '2')) && Same(Letter('/'), Unit4('0', '0', '2', 'f'))
    ensures Same(Letter('\\'), Unit4('0', '0', '5', 'c'))
  {
    hide Same;
    LetterIsUnit('b', Unit4('0', '0', '0', '8'), 0x08);
    LetterIsUnit('t', Unit4('0', '0', '0', '9'), 0x09);
    LetterIsUnit('n', Unit4('0', '0', '0', 'a'), 0x0A);
    LetterIsUnit('n', Unit4('0', '0', '0', 'A'), 0x0A);
    LetterIsUnit('f', Unit4('0', '0', '0', 'c'), 0x0C);
    LetterIsUnit('f', Unit4('0', '0', '0', 'C'), 0x0C);
    LetterIsUnit('r', Unit4('0', '0', '0', 'd'), 0x0D);
    LetterIsUnit('r', Unit4('0', '0', '0', 'D'), 0x0D);
    LetterIsUnit('"', Unit4('0', '0', '2', '2'), 0x22);
    LetterIsUnit('/', Unit4('0', '0', '2', 'f'), 0x2F);
    LetterIsUnit('\\', Unit4('0', '0', '5', 'c'), 0x5C);
  }

  lemma LetterIsUnit(letter: char, e: bytes, c: byte)
    requires letter < '\U{80}' && letter != 'u' && Unescape(letter as int) == Some(c) && IsUnitEscape(e, c)
    ensures Same(Letter(letter), e)
  {
    hide Unescape, IsUnitEscape;
    UnescapeAscii(letter as int);
    UnitEscape(e, c);
    LetterStandsFor(letter, c);
  }

  lemma UnescapeAscii(c: byte)
    ensures Unescape(c).Some? ==> EncodeRune(Unescape(c).value) == [Unescape(c).value] && Unescape(c).value < 0x80
  {
  }

  /** Two units, as section 2.1 of RFC 2781 divides a character beyond U+FFFF, stand for that character. */
  lemma PairEscape(high: bytes, low: bytes, r: int)
    requires 0x10000 <= r <= 0x10FFFF
    requires IsUnitEscape(high, 0xD800 + (r - 0x10000) / 0x400) && IsUnitEscape(low, 0xDC00 + (r - 0x10000) % 0x400)
    ensures StandsFor(high + low, EncodeRune(r))
  {
    var w1, w2 := 0xD800 + (r - 0x10000) / 0x400, 0xDC00 + (r - 0x10000) % 0x400;
    forall rest ensures UnquoteBody(high + low + rest) == Prepend(EncodeRune(r), UnquoteBody(rest)) {
      UnitValue(high, w1, low + rest);
      UnitValue(low, w2, rest);
      Assoc(high, low, rest);
      assert (high + (low + rest))[6..] == low + rest;
      hide GetU4, EncodeRune;
      PieceStandsFor(high + low, EncodeRune(r), rest);
    }
  }

  /** The second half of a pair is at the start of `s`. */
  predicate AtSecondHalf(s: bytes) {
    |s| >= 6 && exists w :: 0xDC00 <= w < 0xE000 && IsUnitEscape(s[..6], w)
  }

  /** The first half of a pair without the second, or the second without the first, stands for U+FFFD. */
  lemma LoneHalf(e: bytes, unit: int, rest: bytes)
    requires IsUnitEscape(e, unit) && 0xD800 <= unit < 0xE000
    requires unit < 0xDC00 ==> !AtSecondHalf(rest)
    ensures UnquoteBody(e + rest) == Prepend([0xEF, 0xBF, 0xBD], UnquoteBody(rest))
  {
    UnitValue(e, unit, rest);
    SecondHalf(rest);
    assert (e + rest)[6..] == rest;
    hide GetU4, AtSecondHalf;
    PieceStandsFor(e, [0xEF, 0xBF, 0xBD], rest);
  }

  lemma SecondHalf(s: bytes)
    ensures AtSecondHalf(s) <==> 0xDC00 <= GetU4(s) < 0xE000
  {
    if AtSecondHalf(s) {
      var w :| 0xDC00 <= w < 0xE000 && IsUnitEscape(s[..6], w);
      UnitValue(s[..6], w, s[6..]);
      TakeDrop(s, 6);
    }
    if GetU4(s) >= 0 {
      UnitSpelled(s);
      hide GetU4;
    }
  }

  lemma UnitSpelled(s: bytes)
    requires GetU4(s) >= 0
    ensures |s| >= 6 && IsUnitEscape(s[..6], GetU4(s))
  {
    HexDigitSpelled(s[2]);
    HexDigitSpelled(s[3]);
    HexDigitSpelled(s[4]);
    HexDigitSpelled(s[5]);
    FourDigits(HexValue(s[2]), HexValue(s[3]), HexValue(s[4]), HexValue(s[5]));
    hide HexValue, IsDigitOf;
  }

  lemma FourDigits(a: int, b: int, c: int, d: int)
    requires 0 <= a < 16 && 0 <= b < 16 && 0 <= c < 16 && 0 <= d < 16
    ensures var u := ((a * 16 + b) * 16 + c) * 16 + d;
      u / 0x1000 == a && u / 0x100 % 0x10 == b && u / 0x10 % 0x10 == c && u % 0x10 == d && 0 <= u < 0x10000
  {
  }

  lemma HexDigitSpelled(c: byte)
    requires IsHex(c)
    ensures IsDigitOf(c, HexValue(c))
  {
  }

  // ---------- what the printer writes ----------

  /** A hexadecimal digit in lower case. */
  function LowerDigit(n: int): byte
    requires 0 <= n < 16
  {
    if n < 10 then '0' as int + n else 'a' as int + (n - 10)
  }

  /** What is written for an ASCII character. */
  function PrintedAscii(c: byte): bytes
    requires c < 0x80
  {
    if c == '"' as int then Letter('"')
    else if c == '\\' as int then Letter('\\')
    else if c == '\n' as int then Letter('n')
    else if c == '\r' as int then Letter('r')
    else if c == '<' as int then Unit4('0', '0', '3', 'c')
    else if c == '>' as int then Unit4('0', '0', '3', 'e')
    else if c == '&' as int then Unit4('0', '0', '2', '6')
    else if c < 0x10 then Unit4('0', '0', '0', '0')[..5] + [LowerDigit(c)]
    else if c < 0x20 then Unit4('0', '0', '1', '0')[..5] + [LowerDigit(c - 0x10)]
    else [c]
  }

  lemma PrintsAscii(c: byte, rest: bytes)
    requires c < 0x80
    ensures QuoteBody([c] + rest) == PrintedAscii(c) + QuoteBody(rest)
  {
    AsciiWritten(c);
    hide QuoteAscii, PrintedAscii;
    assert ([c] + rest)[1..] == rest;
    assert DecodeRune([c] + rest).size == 1;
  }

  lemma AsciiWritten(c: byte)
    requires c < 0x80
    ensures QuoteAscii(c) == PrintedAscii(c)
  {
  }

  /** Beyond ASCII, malformed bytes and the two separators are written as escapes, and all else as it is. */
  lemma PrintsBeyondAscii(s: bytes)
    requires s != [] && s[0] >= 0x80
    ensures !StartsWell(s) ==> QuoteBody(s) == Unit4('f', 'f', 'f', 'd') + QuoteBody(s[1..])
    ensures |s| >= 3 && s[..3] == [0xE2, 0x80, 0xA8] ==> QuoteBody(s) == Unit4('2', '0', '2', '8') + QuoteBody(s[3..])
    ensures |s| >= 3 && s[..3] == [0xE2, 0x80, 0xA9] ==> QuoteBody(s) == Unit4('2', '0', '2', '9') + QuoteBody(s[3..])
    ensures StartsWell(s) && !(|s| >= 3 && (s[..3] == [0xE2, 0x80, 0xA8] || s[..3] == [0xE2, 0x80, 0xA9])) ==>
      QuoteBody(s) == s[..Need(s[0])] + QuoteBody(s[Need(s[0])..])
  {
    BeyondWritten(s);
    hide StartsWell, Need, QuoteRune;
  }

  lemma BeyondWritten(s: bytes)
    requires s != [] && s[0] >= 0x80
    ensures DecodeRune(s).size == if StartsWell(s) then Need(s[0]) else 1
    ensures !StartsWell(s) ==> QuoteRune(s) == Unit4('f', 'f', 'f', 'd')
    ensures |s| >= 3 && s[..3] == [0xE2, 0x80, 0xA8] ==>
      StartsWell(s) && Need(s[0]) == 3 && QuoteRune(s) == Unit4('2', '0', '2', '8')
    ensures |s| >= 3 && s[..3] == [0xE2, 0x80, 0xA9] ==>
      StartsWell(s) && Need(s[0]) == 3 && QuoteRune(s) == Unit4('2', '0', '2', '9')
    ensures StartsWell(s) && !(|s| >= 3 && (s[..3] == [0xE2, 0x80, 0xA8] || s[..3] == [0xE2, 0x80, 0xA9])) ==>
      QuoteRune(s) == s[..Need(s[0])]
  {
    if StartsWell(s) {
      EncodeOfDecode(s);
      assert |s| >= 3 && s[..3] == [0xE2, 0x80, 0xA8] ==> DecodeRune(s).rune == 0x2028;
      assert |s| >= 3 && s[..3] == [0xE2, 0x80, 0xA9] ==> DecodeRune(s).rune == 0x2029;
      if IsSeparator(DecodeRune(s).rune) {
        Separators();
        assert s[..DecodeRune(s).size] == s[..3];
      }
    }
  }

  lemma Separators()
    ensures EncodeRune(0x2028) == [0xE2, 0x80, 0xA8] && EncodeRune(0x2029) == [0xE2, 0x80, 0xA9]
  {
  }

  /** The examples of section 7 of RFC 3629, and the first and last character of each length. */
  lemma Utf8Spelled()
    ensures EncodeRune(0x41) == [0x41] && EncodeRune(0x2262) == [0xE2, 0x89, 0xA2] && EncodeRune(0x391) == [0xCE, 0x91]
    ensures EncodeRune(0xD55C) == [0xED, 0x95, 0x9C] && EncodeRune(0x233B4) == [0xF0, 0xA3, 0x8E, 0xB4]
    ensures EncodeRune(0x7F) == [0x7F] && EncodeRune(0x80) == [0xC2, 0x80] && EncodeRune(0x7FF) == [0xDF, 0xBF]
    ensures EncodeRune(0x800) == [0xE0, 0xA0, 0x80] && EncodeRune(0xFFFF) == [0xEF, 0xBF, 0xBF]
    ensures EncodeRune(0x10000) == [0xF0, 0x90, 0x80, 0x80] && EncodeRune(0x10FFFF) == [0xF4, 0x8F, 0xBF, 0xBF]
  {
  }
}
