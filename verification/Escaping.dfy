/**
 The escapes that `HTMLEscape` (common/json/encode.go) and `compact` (common/json/indent.go) put into a
 text: `<`, `>` and `&` on request, and U+2028 and U+2029 always.
 */
module Escaping {
  import opened Bytes
  import opened Grammar
  import opened Utf8
  import opened Quote

  predicate IsHtml(c: byte) {
    c == LESS || c == GREATER || c == AMPERSAND
  }

  /** `s` starts with U+2028 or U+2029. */
  predicate AtSeparator(s: bytes) {
    |s| >= 3 && s[0] == 0xE2 && s[1] == 0x80 && (s[2] == 0xA8 || s[2] == 0xA9)
  }

  /** The escape at the start of `s`, if one is due, and the bytes it replaces. */
  function EscapeAt(s: bytes, html: bool): (p: Option<Piece>)
    requires s != []
    ensures p.Some? ==> 1 <= p.value.size <= |s|
  {
    if html && IsHtml(s[0]) then Some(Piece(EscapeByte(s[0]), 1))
    else if AtSeparator(s) then Some(Piece(EscapeSeparator(s[2] % 16), 3))
    else None
  }

  /** The first byte of `s`, or the escape of its first character. */
  function EscapePiece(s: bytes, html: bool): (p: Piece)
    requires s != []
    ensures 1 <= p.size <= |s|
  {
    match EscapeAt(s, html)
    case Some(p) => p
    case None => Piece([s[0]], 1)
  }

  function Escaped(s: bytes, html: bool): bytes
    decreases |s|
  {
    if s == [] then [] else EscapePiece(s, html).out + Escaped(s[EscapePiece(s, html).size..], html)
  }

  /** Escapes are ASCII, so they never make or break the character across a boundary before ASCII. */
  lemma {:induction false} EscapedSplit(a: bytes, b: bytes, html: bool)
    requires b == [] || b[0] < RUNE_SELF
    ensures Escaped(a + b, html) == Escaped(a, html) + Escaped(b, html)
    decreases |a|
  {
    if a == [] {
      assert a + b == b;
    } else {
      PieceSplit(a, b, html);
      hide EscapePiece;
      var p := EscapePiece(a, html);
      assert (a + b)[p.size..] == a[p.size..] + b;
      EscapedSplit(a[p.size..], b, html);
      Assoc(p.out, Escaped(a[p.size..], html), Escaped(b, html));
    }
  }

  lemma PieceSplit(a: bytes, b: bytes, html: bool)
    requires a != [] && (b == [] || b[0] < RUNE_SELF)
    ensures EscapePiece(a + b, html) == EscapePiece(a, html)
  {
    assert AtSeparator(a + b) <==> AtSeparator(a);
  }

  /** Bytes that are never escaped. */
  predicate Inert(c: byte) {
    c < RUNE_SELF && !IsHtml(c)
  }

  lemma {:induction false} EscapedInert(a: bytes, b: bytes, html: bool)
    requires forall c | c in a :: Inert(c)
    ensures Escaped(a + b, html) == a + Escaped(b, html)
    decreases |a|
  {
    if a == [] {
      assert a + b == b;
    } else {
      assert a[0] in a && (a + b)[1..] == a[1..] + b;
      EscapedInert(a[1..], b, html);
      assert a + Escaped(b, html) == [a[0]] + (a[1..] + Escaped(b, html));
    }
  }

  lemma EscapeIsInert(s: bytes, html: bool)
    requires s != [] && EscapeAt(s, html).Some?
    ensures forall c | c in EscapeAt(s, html).value.out :: Inert(c)
    ensures |EscapeAt(s, html).value.out| == 6 && EscapeAt(s, html).value.out[0] == BACKSLASH
  {
  }

  /** The first byte of an escaped text. */
  lemma EscapedHead(s: bytes, html: bool)
    requires s != []
    ensures Escaped(s, html) != []
    ensures EscapeAt(s, html).None? ==> Escaped(s, html) == [s[0]] + Escaped(s[1..], html)
    ensures EscapeAt(s, html).Some? ==> Escaped(s, html)[0] == BACKSLASH
    ensures Escaped(s, html)[0] >= RUNE_SELF ==> EscapeAt(s, html).None?
  {
    if EscapeAt(s, html).Some? {
      EscapeIsInert(s, html);
    }
  }

  /** What is not escaped in `s` is not escaped after its tail has been. */
  lemma NoNewSeparator(s: bytes, html: bool)
    requires s != [] && !AtSeparator(s)
    ensures !AtSeparator([s[0]] + Escaped(s[1..], html))
  {
    if |s| >= 2 {
      EscapedHead(s[1..], html);
      if |s| >= 3 {
        EscapedHead(s[1..][1..], html);
      }
    }
  }

  /** Escaping a second time changes nothing. */
  lemma {:induction false} EscapedTwice(s: bytes, html: bool, again: bool)
    requires again ==> html
    ensures Escaped(Escaped(s, html), again) == Escaped(s, html)
    decreases |s|
  {
    if s != [] {
      var p := EscapePiece(s, html);
      EscapedTwice(s[p.size..], html, again);
      if EscapeAt(s, html).Some? {
        EscapeIsInert(s, html);
        EscapedInert(p.out, Escaped(s[p.size..], html), again);
      } else {
        NoNewSeparator(s, html);
        assert ([s[0]] + Escaped(s[1..], html))[1..] == Escaped(s[1..], html);
      }
    }
  }

  // ---------- escaping keeps the meaning of strings ----------

  /** Continuation bytes are never escaped. */
  lemma {:induction false} EscapedTails(s: bytes, n: nat, html: bool)
    requires 0 < n <= |s| && EscapeAt(s, html).None?
    requires forall i | 0 < i < n :: IsTail(s[i])
    ensures Escaped(s, html) == s[..n] + Escaped(s[n..], html)
    decreases n
  {
    EscapedHead(s, html);
    if n > 1 {
      EscapedTails(s[1..], n - 1, html);
      assert s[1..][n - 1..] == s[n..] && [s[0]] + s[1..][..n - 1] == s[..n];
      Assoc([s[0]], s[1..][..n - 1], Escaped(s[n..], html));
    }
  }

  /** Escaping never completes a malformed UTF-8 sequence. */
  lemma StillMalformed(s: bytes, html: bool)
    requires s != [] && !StartsWell(s)
    ensures !StartsWell([s[0]] + Escaped(s[1..], html))
  {
    if |s| >= 2 {
      EscapedHead(s[1..], html);
      if |s| >= 3 {
        EscapedHead(s[1..][1..], html);
        if |s| >= 4 {
          EscapedHead(s[1..][1..][1..], html);
        }
      }
    }
  }

  lemma HeadTails(s: bytes)
    requires s != []
    ensures forall i | 0 < i < DecodeRune(s).size :: IsTail(s[i])
  {
  }

  /** The same piece of meaning, read from `e` instead of from `s`. */
  predicate SamePiece(s: bytes, e: bytes, rest: bytes)
    requires s != [] && e != []
  {
    UnquotePiece(s).Some? &&
    UnquotePiece(e + rest) == Some(Piece(UnquotePiece(s).value.out, |e|))
  }

  lemma SeparatorRune(s: bytes)
    requires AtSeparator(s)
    ensures DecodeRune(s) == Decoded(if s[2] == 0xA8 then 0x2028 else 0x2029, 3)
    ensures UnquotePiece(s) == Some(Piece(EncodeRune(if s[2] == 0xA8 then 0x2028 else 0x2029), 3))
  {
  }

  /** A character outside ASCII that stays as it is reads the same before an escaped rest. */
  lemma HighStays(s: bytes, html: bool)
    requires s != [] && s[0] >= RUNE_SELF && EscapeAt(s, html).None?
    ensures var d := DecodeRune(s);
            Escaped(s, html) == s[..d.size] + Escaped(s[d.size..], html)
            && DecodeRune(Escaped(s, html)) == d
  {
    var d := DecodeRune(s);
    HeadTails(s);
    EscapedTails(s, d.size, html);
    if StartsWell(s) {
      EncodeOfDecode(s);
      DecodeOfEncode(d.rune, Escaped(s[d.size..], html));
    } else {
      StillMalformed(s, html);
    }
  }

  /** A character outside ASCII. */
  lemma EscapedHigh(s: bytes, html: bool) returns (e: bytes)
    requires s != [] && s[0] >= RUNE_SELF
    ensures var rest := Escaped(s[DecodeRune(s).size..], html);
            e != [] && Escaped(s, html) == e + rest && SamePiece(s, e, rest)
  {
    hide DecodeRune, EncodeRune;
    var d := DecodeRune(s);
    var rest := Escaped(s[d.size..], html);
    if EscapeAt(s, html).Some? {
      SeparatorRune(s);
      e := EscapeAt(s, html).value.out;
      UnquoteEscapeSeparator(d.rune, rest);
    } else {
      HighStays(s, html);
      e := s[..d.size];
      assert (e + rest)[0] == s[0];
    }
  }

  /** A backslash escape: its bytes are never escaped themselves. */
  lemma EscapedBackslash(s: bytes, html: bool) returns (e: bytes)
    requires s != [] && s[0] == BACKSLASH && IsStringBody(s)
    ensures UnquotePiece(s).Some?
    ensures var rest := Escaped(s[UnquotePiece(s).value.size..], html);
            e != [] && Escaped(s, html) == e + rest && SamePiece(s, e, rest)
  {
    hide IsStringBody, UnquoteU, Escaped;
    PieceOfBody(s);
    var n := UnquotePiece(s).value.size;
    e := s[..n];
    var rest := Escaped(s[n..], html);
    assert s == e + s[n..];
    EscapeBytes(s);
    EscapedInert(e, s[n..], html);
    if s[1] == LOWER_U {
      EscapedU(s, n, html);
      assert (e + rest)[0] == s[0] && (e + rest)[1] == s[1];
    }
  }

  /** The case of `\\u`. */
  lemma EscapedU(s: bytes, n: nat, html: bool)
    requires |s| >= 2 && s[0] == BACKSLASH && s[1] == LOWER_U && IsStringBody(s)
    requires UnquoteU(s).Some? && n == UnquoteU(s).value.size
    ensures UnquoteU(s[..n] + Escaped(s[n..], html)) == UnquoteU(s)
  {
    hide EncodeRune, Escaped;
    var t := s[..n] + Escaped(s[n..], html);
    assert forall i | 0 <= i < n :: t[i] == s[i];
    if n == 6 && IsSurrogate(GetU4(s)) {
      LoneSurrogate(s[6..], html, GetU4(s));
      assert t[6..] == Escaped(s[6..], html);
    } else if n == 12 {
      assert t[6..][..6] == s[6..][..6];
    }
  }

  lemma EscapeBytes(s: bytes)
    requires s != [] && s[0] == BACKSLASH && IsStringBody(s) && UnquotePiece(s).Some?
    ensures forall c | c in s[..UnquotePiece(s).value.size] :: Inert(c)
  {
    if UnquotePiece(s).value.size == 12 {
      assert s[..12] == s[..6] + s[6..][..6];
    }
  }

  /** What follows a surrogate without a partner does not become its partner. */
  lemma LoneSurrogate(t: bytes, html: bool, rr: int)
    requires IsStringBody(t) && DecodePair(rr, GetU4(t)) == RUNE_ERROR
    ensures DecodePair(rr, GetU4(Escaped(t, html))) == RUNE_ERROR
  {
    if t != [] && t[0] == BACKSLASH && t[1] == LOWER_U {
      assert forall c | c in t[..6] :: Inert(c);
      assert t == t[..6] + t[6..];
      EscapedInert(t[..6], t[6..], html);
    } else if t != [] {
      EscapedHead(t, html);
      if EscapeAt(t, html).Some? {
        EscapeIsInert(t, html);
        SmallEscape(t, html);
      } else if t[0] == BACKSLASH {
        EscapedHead(t[1..], html);
      }
    }
  }

  /** An escape never stands for a surrogate. */
  lemma SmallEscape(t: bytes, html: bool)
    requires t != [] && EscapeAt(t, html).Some?
    ensures GetU4(Escaped(t, html)) < 0xD800
  {
    var p := EscapeAt(t, html).value;
    var rest := Escaped(t[p.size..], html);
    if html && IsHtml(t[0]) {
      HexRound(t[0] / 16);
      HexRound(t[0] % 16);
    } else {
      HexRound(t[2] % 16);
    }
  }

  /** A string body keeps its form and its meaning under escaping. */
  lemma {:induction false} EscapedBody(s: bytes, html: bool)
    requires IsStringBody(s)
    ensures IsStringBody(Escaped(s, html)) && UnquoteBody(Escaped(s, html)) == UnquoteBody(s)
    decreases |s|
  {
    hide UnquotePiece, EscapePiece, EscapeAt;
    EscapedIsBody(s, html);
    if s != [] {
      PieceOfBody(s);
      var p := UnquotePiece(s).value;
      var e := EscapedFirst(s, html);
      var rest := Escaped(s[p.size..], html);
      EscapedBody(s[p.size..], html);
      assert (e + rest)[|e|..] == rest;
    }
  }

  lemma EscapedFirst(s: bytes, html: bool) returns (e: bytes)
    requires s != [] && IsStringBody(s)
    ensures UnquotePiece(s).Some?
    ensures var rest := Escaped(s[UnquotePiece(s).value.size..], html);
            e != [] && Escaped(s, html) == e + rest && SamePiece(s, e, rest)
  {
    hide EncodeRune, DecodeRune;
    if s[0] == BACKSLASH {
      e := EscapedBackslash(s, html);
    } else if s[0] >= RUNE_SELF {
      e := EscapedHigh(s, html);
    } else {
      AsciiPiece(s);
      EscapedHead(s, html);
      e := EscapePiece(s, html).out;
      if EscapeAt(s, html).Some? {
        UnquoteEscapeByte(s[0], Escaped(s[1..], html));
      } else {
        AsciiPiece(e + Escaped(s[1..], html));
      }
    }
  }

  lemma AsciiPiece(s: bytes)
    requires s != [] && SPACE <= s[0] < RUNE_SELF && s[0] != QUOTE && s[0] != BACKSLASH
    ensures UnquotePiece(s) == Some(Piece([s[0]], 1))
  {
  }

  /** An escape sequence of six bytes before a string body. */
  lemma EscapeBeforeBody(e: bytes, rest: bytes)
    requires e != [] && e[0] == BACKSLASH && IsStringBody(rest)
    requires
      || (|e| == 2 && IsEscapeLetter(e[1]))
      || (|e| == 6 && e[1] == LOWER_U && IsHex(e[2]) && IsHex(e[3]) && IsHex(e[4]) && IsHex(e[5]))
    ensures IsStringBody(e + rest)
  {
    assert (e + rest)[|e|..] == rest;
  }

  lemma AfterEscape(s: bytes, html: bool)
    requires s != [] && IsStringBody(s) && EscapeAt(s, html).Some?
    ensures IsStringBody(s[EscapeAt(s, html).value.size..])
    ensures var e := EscapeAt(s, html).value.out;
            |e| == 6 && e[0] == BACKSLASH && e[1] == LOWER_U
            && IsHex(e[2]) && IsHex(e[3]) && IsHex(e[4]) && IsHex(e[5])
  {
    assert forall n | 0 <= n < 16 :: IsHex(HexDigit(n));
    if AtSeparator(s) {
      SkipHigh(s, 3);
    }
  }

  lemma {:induction false} EscapedIsBody(s: bytes, html: bool)
    requires IsStringBody(s)
    ensures IsStringBody(Escaped(s, html))
    decreases |s|
  {
    if s == [] {
    } else if EscapeAt(s, html).Some? {
      hide IsStringBody;
      var p := EscapeAt(s, html).value;
      AfterEscape(s, html);
      EscapedIsBody(s[p.size..], html);
      EscapeBeforeBody(p.out, Escaped(s[p.size..], html));
    } else if s[0] != BACKSLASH {
      EscapedHead(s, html);
      EscapedIsBody(s[1..], html);
    } else {
      var n := if s[1] == LOWER_U then 6 else 2;
      assert s == s[..n] + s[n..];
      EscapedInert(s[..n], s[n..], html);
      EscapedIsBody(s[n..], html);
      EscapeBeforeBody(s[..n], Escaped(s[n..], html));
    }
  }
}
