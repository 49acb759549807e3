/** The loops of `encodeState.string` and `unquoteBytes`, which copy runs of bytes and reuse buffers. */
module QuoteLoops {
  import opened Bytes
  import opened Utf8
  import opened Quote
  import opened Buffers

  lemma QuoteUnfold(s: bytes, i: nat)
    requires i < |s|
    ensures QuoteBody(s[i..]) == QuoteRune(s[i..]) + QuoteBody(s[i + DecodeRune(s[i..]).size..])
  {
    assert s[i..][DecodeRune(s[i..]).size..] == s[i + DecodeRune(s[i..]).size..];
  }

  /** What is written, what is pending from `start`, and what is still to be printed. */
  function Outlook(written: bytes, s: bytes, start: nat, i: nat): bytes
    requires start <= i <= |s|
  {
    written + (s[start..i] + QuoteBody(s[i..]))
  }

  /** One step of the printer's loop over a rune that is replaced. */
  lemma ReplaceOn(written: bytes, s: bytes, start: nat, i: nat)
    requires start <= i < |s|
    ensures var next := i + DecodeRune(s[i..]).size;
            next <= |s| && Outlook(written + s[start..i] + QuoteRune(s[i..]), s, next, next)
                           == Outlook(written, s, start, i)
  {
    hide DecodeRune, QuoteRune, QuoteBody;
    var n := DecodeRune(s[i..]).size;
    QuoteUnfold(s, i);
    assert s[i + n..i + n] == [];
  }

  /** One step over a rune that is copied as it stands: the pending run grows. */
  lemma CopyOn(written: bytes, s: bytes, start: nat, i: nat)
    requires start <= i < |s| && QuoteRune(s[i..]) == s[i..][..DecodeRune(s[i..]).size]
    ensures var next := i + DecodeRune(s[i..]).size;
            next <= |s| && Outlook(written, s, start, next) == Outlook(written, s, start, i)
  {
    hide DecodeRune, QuoteRune, QuoteBody;
    var n := DecodeRune(s[i..]).size;
    QuoteUnfold(s, i);
    assert s[start..i] + s[i..][..n] == s[start..i + n];
  }

  lemma QuoteEmpty()
    ensures QuoteBody([]) == []
  {
  }

  lemma OutlookStart(written: bytes, s: bytes)
    ensures Outlook(written, s, 0, 0) == written + QuoteBody(s)
  {
    hide QuoteBody;
    assert s[0..] == s;
    Unit(QuoteBody(s));
  }

  lemma OutlookEnd(written: bytes, s: bytes, start: nat)
    requires start <= |s|
    ensures Outlook(written, s, start, |s|) == written + s[start..]
  {
    hide QuoteBody;
    QuoteEmpty();
    assert s[|s|..] == [] && s[start..|s|] == s[start..];
    Unit(s[start..]);
  }

  /** The four kinds of runes, as the loop tells them apart. */
  lemma RuneKinds(s: bytes)
    requires s != []
    ensures s[0] < RUNE_SELF ==> DecodeRune(s).size == 1 && QuoteRune(s) == QuoteAscii(s[0])
    ensures s[0] >= RUNE_SELF ==>
      var d := DecodeRune(s);
      QuoteRune(s) ==
        if d.rune == RUNE_ERROR && d.size == 1 then ESCAPED_ERROR
        else if IsSeparator(d.rune) then EscapeSeparator(d.rune % 16)
        else s[..d.size]
  {
  }

  /** Writes a byte below 0x80 that may not stand in a string as it is. */
  method WriteEscaped(e: Buffer, b: byte)
    requires b < RUNE_SELF && QuoteAscii(b) != [b]
    modifies e
    ensures e.contents == old(e.contents) + QuoteAscii(b)
  {
    if b == BACKSLASH || b == QUOTE {
      e.WriteByte(BACKSLASH);
      e.WriteByte(b);
    } else if b == NEWLINE {
      e.WriteByte(BACKSLASH);
      e.WriteByte(LOWER_N);
    } else if b == RETURN {
      e.WriteByte(BACKSLASH);
      e.WriteByte(LOWER_R);
    } else {
      e.Write([BACKSLASH, LOWER_U, ZERO, ZERO]);
      e.WriteByte(HexDigit(b / 16));
      e.WriteByte(HexDigit(b % 16));
    }
  }

  /** `if start < i { e.Write(s[start:i]) }`. */
  method Flush(e: Buffer, s: bytes, start: nat, i: nat)
    requires start <= i <= |s|
    modifies e
    ensures e.contents == old(e.contents) + s[start..i]
  {
    if start < i {
      e.Write(s[start..i]);
    }
  }

  /** The loop between the quotes. */
  method EncodeBody(e: Buffer, s: bytes)
    modifies e
    ensures e.contents == old(e.contents) + QuoteBody(s)
  {
    hide QuoteBody, QuoteRune, DecodeRune, Outlook;
    var start, i := 0, 0;
    OutlookStart(e.contents, s);
    while i < |s|
      invariant 0 <= start <= i <= |s|
      invariant Outlook(e.contents, s, start, i) == old(e.contents) + QuoteBody(s)
    {
      RuneKinds(s[i..]);
      var b := s[i];
      var d := DecodeRune(s[i..]);
      if b < RUNE_SELF {
        if SPACE <= b && b != BACKSLASH && b != QUOTE && b != LESS && b != GREATER && b != AMPERSAND {
          CopyOn(e.contents, s, start, i);
          i := i + 1;
          continue;
        }
        ReplaceOn(e.contents, s, start, i);
        Flush(e, s, start, i);
        WriteEscaped(e, b);
        i := i + 1;
        start := i;
        continue;
      }
      if d.rune == RUNE_ERROR && d.size == 1 {
        ReplaceOn(e.contents, s, start, i);
        Flush(e, s, start, i);
        e.Write(ESCAPED_ERROR);
        i := i + d.size;
        start := i;
        continue;
      }
      if d.rune == 0x2028 || d.rune == 0x2029 {
        ReplaceOn(e.contents, s, start, i);
        Flush(e, s, start, i);
        WriteSeparator(e, d.rune);
        i := i + d.size;
        start := i;
        continue;
      }
      CopyOn(e.contents, s, start, i);
      i := i + d.size;
    }
    OutlookEnd(e.contents, s, start);
    if start < |s| {
      e.Write(s[start..]);
    }
  }

  method WriteSeparator(e: Buffer, r: int)
    requires IsSeparator(r)
    modifies e
    ensures e.contents == old(e.contents) + EscapeSeparator(r % 16)
  {
    e.Write([BACKSLASH, LOWER_U, 0x32, ZERO, 0x32]);
    e.WriteByte(HexDigit(r % 16));
  }

  /** `encodeState.string` (and `stringBytes`, its copy for byte slices): returns the number of bytes written. */
  method EncodeString(e: Buffer, s: bytes) returns (n: int)
    modifies e
    ensures e.contents == old(e.contents) + Quoted(s) && n == |Quoted(s)|
  {
    hide QuoteBody;
    var len0 := |e.contents|;
    e.WriteByte(QUOTE);
    EncodeBody(e, s);
    e.WriteByte(QUOTE);
    n := |e.contents| - len0;
  }

  // ---------- parsing ----------

  lemma UnquoteEmpty()
    ensures UnquoteBody([]) == Some([])
  {
  }

  /** What is decoded already, and what is still to be decoded. */
  function Remaining(done: bytes, s: bytes, r: nat): Option<bytes>
    requires r <= |s|
  {
    Prepend(done, UnquoteBody(s[r..]))
  }

  lemma UnquoteOn(done: bytes, s: bytes, r: nat)
    requires r < |s|
    ensures UnquotePiece(s[r..]).None? ==> Remaining(done, s, r) == None
    ensures UnquotePiece(s[r..]).Some? ==>
      var p := UnquotePiece(s[r..]).value;
      Remaining(done + p.out, s, r + p.size) == Remaining(done, s, r)
  {
    hide UnquotePiece;
    if UnquotePiece(s[r..]).Some? {
      var p := UnquotePiece(s[r..]).value;
      assert s[r..][p.size..] == s[r + p.size..];
      PrependTwice(done, p.out, UnquoteBody(s[r + p.size..]));
    }
  }

  lemma PrependTwice(a: bytes, b: bytes, t: Option<bytes>)
    ensures Prepend(a, Prepend(b, t)) == Prepend(a + b, t)
  {
    if t.Some? {
      assert a + (b + t.value) == a + b + t.value;
    }
  }

  lemma RemainingEnds(done: bytes, s: bytes)
    ensures Remaining(done, s, |s|) == Some(done)
    ensures Remaining([], s, 0) == UnquoteBody(s)
  {
    hide UnquoteBody;
    UnquoteEmpty();
    assert s[|s|..] == [] && s[0..] == s;
    Unit(done);
    PrependNothing(UnquoteBody(s));
  }

  lemma PrependNothing(t: Option<bytes>)
    ensures Prepend([], t) == t
  {
    if t.Some? {
      assert [] + t.value == t.value;
    }
  }

  /** The bytes that need no unquoting: how far the first loop gets. */
  method PlainPrefix(s: bytes) returns (r: nat)
    ensures r <= |s| && Remaining(s[..r], s, r) == UnquoteBody(s)
  {
    hide UnquoteBody, UnquotePiece, Remaining;
    RemainingEnds([], s);
    r := 0;
    while r < |s|
      invariant 0 <= r <= |s| && Remaining(s[..r], s, r) == UnquoteBody(s)
    {
      UnquoteOn(s[..r], s, r);
      PieceKinds(s[r..]);
      var c := s[r];
      if c == BACKSLASH || c == QUOTE || c < SPACE {
        break;
      }
      if c < RUNE_SELF {
        assert s[..r] + [c] == s[..r + 1];
        r := r + 1;
        continue;
      }
      var d := DecodeRune(s[r..]);
      if d.rune == RUNE_ERROR && d.size == 1 {
        break;
      }
      assert s[..r] + s[r..][..d.size] == s[..r + d.size];
      r := r + d.size;
    }
  }

  /** What stands for itself. */
  lemma PieceKinds(s: bytes)
    requires s != []
    ensures SPACE <= s[0] < RUNE_SELF && s[0] != BACKSLASH && s[0] != QUOTE
            ==> UnquotePiece(s) == Some(Piece([s[0]], 1))
    ensures var d := DecodeRune(s);
      s[0] >= RUNE_SELF && !(d.rune == RUNE_ERROR && d.size == 1)
      ==> UnquotePiece(s) == Some(Piece(s[..d.size], d.size))
  {
    if StartsWell(s) {
      EncodeOfDecode(s);
    }
  }

  /** `utf8.EncodeRune(b[w:], r)`. */
  method PutRune(b: array<byte>, w: nat, r: int) returns (n: nat)
    requires w + 4 <= b.Length
    modifies b
    ensures n == |EncodeRune(r)| && b[..w + n] == old(b[..w]) + EncodeRune(r)
  {
    var code := EncodeRune(r);
    n := |code|;
    for i := 0 to n
      invariant b[..w + i] == old(b[..w]) + code[..i]
    {
      b[w + i] := code[i];
    }
  }

  method PutByte(b: array<byte>, w: nat, c: byte)
    requires w < b.Length
    modifies b
    ensures b[..w + 1] == old(b[..w]) + [c]
  {
    b[w] := c;
  }

  /** The growing buffer: a copy with room for more, when less than two runes would fit. */
  method Grow(b: array<byte>, w: nat) returns (nb: array<byte>)
    requires w + 4 <= b.Length
    ensures w + 8 < nb.Length && nb[..w] == b[..w] && (nb == b || fresh(nb))
  {
    if w >= b.Length - 8 {
      nb := new byte[(b.Length + 4) * 2];
      for i := 0 to w
        invariant nb[..i] == b[..i]
      {
        nb[i] := b[i];
      }
    } else {
      nb := b;
    }
  }

  /** One round of the second loop at `s[r..]`: bytes written at `b[w..]` and bytes read; none on failure. */
  method UnquoteRound(b: array<byte>, w: nat, s: bytes, r: nat) returns (step: Option<(nat, nat)>)
    requires w + 8 < b.Length && r < |s|
    modifies b
    ensures step.None? <==> UnquotePiece(s[r..]).None?
    ensures step.Some? ==>
      var p := UnquotePiece(s[r..]).value;
      step.value == (|p.out|, p.size) && |p.out| <= 4 && b[..w + |p.out|] == old(b[..w]) + p.out
  {
    hide UnquoteU, DecodeRune, EncodeRune;
    var c := s[r];
    if c == BACKSLASH {
      if r + 1 >= |s| {
        return None;
      }
      var e := s[r + 1];
      if e == LOWER_U {
        step := UnquoteEscapeU(b, w, s, r);
      } else {
        var c := UnquoteLetter(e);
        if c.None? {
          return None;
        }
        PutByte(b, w, c.value);
        return Some((1, 2));
      }
    } else if c == QUOTE || c < SPACE {
      return None;
    } else if c < RUNE_SELF {
      PieceKinds(s[r..]);
      PutByte(b, w, c);
      return Some((1, 1));
    } else {
      var d := DecodeRune(s[r..]);
      var n := PutRune(b, w, d.rune);
      return Some((n, d.size));
    }
  }

  /** The cases of a single letter. */
  method UnquoteLetter(e: byte) returns (c: Option<byte>)
    ensures c == Unescape(e)
  {
    if e == QUOTE || e == BACKSLASH || e == SLASH || e == APOSTROPHE {
      return Some(e);
    } else if e == LOWER_B {
      return Some(0x08);
    } else if e == LOWER_F {
      return Some(0x0C);
    } else if e == LOWER_N {
      return Some(0x0A);
    } else if e == LOWER_R {
      return Some(0x0D);
    } else if e == LOWER_T {
      return Some(0x09);
    } else {
      return None;
    }
  }

  /** The case of `\\u`. */
  method UnquoteEscapeU(b: array<byte>, w: nat, s: bytes, r: nat) returns (step: Option<(nat, nat)>)
    requires w + 8 < b.Length && r <= |s|
    modifies b
    ensures step.None? <==> UnquoteU(s[r..]).None?
    ensures step.Some? ==>
      var p := UnquoteU(s[r..]).value;
      step.value == (|p.out|, p.size) && |p.out| <= 4 && b[..w + |p.out|] == old(b[..w]) + p.out
  {
    hide GetU4, EncodeRune, DecodePair;
    var rr := GetU4(s[r..]);
    if rr < 0 {
      return None;
    }
    U4Length(s[r..]);
    if IsSurrogate(rr) {
      var rr1 := GetU4(s[r + 6..]);
      assert s[r..][6..] == s[r + 6..];
      var dec := DecodePair(rr, rr1);
      if dec != RUNE_ERROR {
        // a valid pair: both escapes are consumed
        var n := PutRune(b, w, dec);
        return Some((n, 12));
      }
      rr := RUNE_ERROR;
    }
    var n := PutRune(b, w, rr);
    return Some((n, 6));
  }

  lemma U4Length(s: bytes)
    requires GetU4(s) >= 0
    ensures |s| >= 6
  {
  }

  /** `unquoteBytes`: its second loop never writes outside the buffer it grows. */
  method UnquoteBytes(text: bytes) returns (t: Option<bytes>)
    ensures t == Unquoted(text)
  {
    hide UnquoteBody, UnquotePiece, Remaining;
    if |text| < 2 || text[0] != QUOTE || text[|text| - 1] != QUOTE {
      return None;
    }
    var s := text[1..|text| - 1];
    var r := PlainPrefix(s);
    RemainingEnds(s[..r], s);
    if r == |s| {
      return Some(s[..r]);
    }
    var b := new byte[|s| + 8];
    for i := 0 to r
      invariant b[..i] == s[..i]
    {
      b[i] := s[i];
    }
    var w := r;
    while r < |s|
      invariant r <= |s| && 0 <= w && w + 4 <= b.Length && fresh(b)
      invariant Remaining(b[..w], s, r) == UnquoteBody(s)
    {
      b := Grow(b, w);
      UnquoteOn(b[..w], s, r);
      var step := UnquoteRound(b, w, s, r);
      if step.None? {
        return None;
      }
      w, r := w + step.value.0, r + step.value.1;
    }
    RemainingEnds(b[..w], s);
    return Some(b[..w]);
  }
}
