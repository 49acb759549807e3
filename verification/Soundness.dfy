/** Every text the scanner accepts is the yield of a well-formed document. */
module Soundness {
  import opened Bytes
  import opened Scanning
  import opened Grammar
  import opened Recognition

  /** An accepted text never steps into the dead state. */
  lemma Alive(q: Conf, s: bytes)
    requires Accepts(q, s) && s != []
    ensures Trans(q, s[0]).next.step != Dead && Accepts(Trans(q, s[0]).next, s[1..])
  {
    if Trans(q, s[0]).next.step == Dead {
      DeadForever(Trans(q, s[0]).next, s[1..]);
    }
  }

  lemma Unfinished(q: Conf)
    requires EofOk(q) && !q.endTop
    ensures q.stack == [] && EndStep(q.step)
  {
  }

  /** A literal that may end here, and does. */
  lemma LeaveSettles(q: Conf, s: bytes)
    requires EndStep(q.step) && !q.endTop && Accepts(q, s)
    requires s == [] || q.step.EndValue? || Lex(q.step, s[0]).Leave?
    ensures Accepts(Ended(q.stack), s)
  {
    if s == [] {
      SettleStep(q, SPACE);
    } else if !q.step.EndValue? {
      TransInLiteral(q, s[0]);
    }
  }

  /** Inside a literal, an accepted text goes on or leaves. */
  lemma AliveInside(q: Conf, s: bytes)
    requires InLiteral(q.step) && Accepts(q, s) && s != []
    ensures !Lex(q.step, s[0]).Bad?
    ensures Lex(q.step, s[0]).Goto? ==> Accepts(q.(step := Lex(q.step, s[0]).step), s[1..])
  {
    hide Trans;
    Alive(q, s);
    TransInLiteral(q, s[0]);
  }

  /** The first byte of a literal. */
  lemma AliveFirst(q: Conf, s: bytes)
    requires AtValueStart(q) || (AtKeyStart(q) && s != [] && s[0] == QUOTE)
    requires Accepts(q, s) && s != [] && FirstStep(s[0]).Some?
    ensures Accepts(q.(step := FirstStep(s[0]).value), s[1..])
  {
    Alive(q, s);
    LiteralStep(q, s[0]);
  }

  /** At the start of a value only an opening byte is alive, and a bracket that the gap has made room for. */
  lemma AliveValue(q: Conf, s: bytes)
    requires AtValueStart(q) && Accepts(q, s) && Token(s)
    ensures s[0] == RBRACKET ==> q.step.BeginValueOrEmpty? && Inside(q.stack, ArrayValue)
                                 && Accepts(Ended(q.stack[..|q.stack| - 1]), s[1..])
    ensures s[0] == LBRACKET ==> Accepts(Conf(BeginValueOrEmpty, q.stack + [ArrayValue], false), s[1..])
    ensures s[0] == LBRACE ==> Accepts(Conf(BeginStringOrEmpty, q.stack + [ObjectKey], false), s[1..])
    ensures s[0] == RBRACKET || s[0] == LBRACKET || s[0] == LBRACE || FirstStep(s[0]).Some?
  {
    Alive(q, s);
  }

  /** At the start of a key only a quote is alive, and the brace of an empty object. */
  lemma AliveKey(q: Conf, s: bytes)
    requires AtKeyStart(q) && Accepts(q, s) && Token(s)
    ensures s[0] == QUOTE || (s[0] == RBRACE && q.step.BeginStringOrEmpty?
                              && Accepts(Ended(q.stack[..|q.stack| - 1]), s[1..]))
  {
    Alive(q, s);
  }

  /** After an element: a comma or the closing bracket. */
  lemma AliveElement(outer: seq<ParseState>, s: bytes)
    requires Accepts(Ended(outer + [ArrayValue]), s) && Token(s)
    ensures (s[0] == RBRACKET && Accepts(Ended(outer), s[1..])) ||
            (s[0] == COMMA && Accepts(Conf(BeginValue, outer + [ArrayValue], false), s[1..]))
  {
    Alive(Ended(outer + [ArrayValue]), s);
  }

  /** After a member: a comma or the closing brace. */
  lemma AliveMember(outer: seq<ParseState>, s: bytes)
    requires Accepts(Ended(outer + [ObjectValue]), s) && Token(s)
    ensures (s[0] == RBRACE && Accepts(Ended(outer), s[1..])) ||
            (s[0] == COMMA && Accepts(Conf(BeginString, outer + [ObjectKey], false), s[1..]))
  {
    Alive(Ended(outer + [ObjectValue]), s);
  }

  /** After a key: its colon. */
  lemma AliveColon(outer: seq<ParseState>, s: bytes)
    requires Accepts(Ended(outer + [ObjectKey]), s) && s != [] && !IsSpace(s[0])
    ensures s[0] == COLON && Accepts(Conf(BeginValue, outer + [ObjectValue], false), s[1..])
  {
    Alive(Ended(outer + [ObjectKey]), s);
  }

  /** A byte that is neither white space nor a slash: the end of a gap. */
  predicate Token(s: bytes) {
    s != [] && !IsSpace(s[0]) && s[0] != SLASH
  }

  // ---------- gaps ----------

  lemma SpaceStep(q: Conf, c: byte)
    requires GapPlace(q) && IsSpace(c)
    ensures Trans(q, c).next == q
  {
  }

  lemma GapEndPlace(q: Conf, g: bytes)
    requires GapPlace(q)
    ensures GapPlace(GapEnd(q, g))
  {
  }

  lemma {:induction false} ParseGap(q: Conf, s: bytes) returns (g: bytes, rest: bytes)
    requires GapPlace(q) && Accepts(q, s)
    ensures s == g + rest && IsGap(g) && rest != [] && !IsSpace(rest[0]) && rest[0] != SLASH
    ensures Accepts(GapEnd(q, g), rest) && GapPlace(GapEnd(q, g))
    decreases |s|
  {
    if s == [] {
      Unfinished(q);
    }
    if IsSpace(s[0]) {
      SpaceStep(q, s[0]);
      g, rest := ParseGap(q, s[1..]);
      assert IsSpaces([s[0]] + g) <==> IsSpaces(g);
      g := [s[0]] + g;
    } else if s[0] == SLASH {
      SlashesOpen(q, s);
      g, rest := ParseComment(q, s[2..]);
      g := [SLASH, SLASH] + g;
      assert SLASH in g;
      GapEndPlace(q, g);
    } else {
      g, rest := [], s;
    }
  }

  /** A slash in a gap is the first of two. */
  lemma SlashesOpen(q: Conf, s: bytes)
    requires GapPlace(q) && Accepts(q, s) && s != [] && s[0] == SLASH
    ensures |s| >= 2 && s[1] == SLASH && Accepts(Commented(q), s[2..])
  {
    CommentSteps(q, SLASH);
    Alive(q, s);
    if s[1..] == [] {
      Unfinished(Opened(q));
    }
    Alive(Opened(q), s[1..]);
    assert s[1..][1..] == s[2..];
  }

  lemma {:induction false} ParseComment(q: Conf, s: bytes) returns (g: bytes, rest: bytes)
    requires GapPlace(q) && Accepts(Commented(q), s)
    ensures s == g + rest && IsComment(g) && rest != [] && !IsSpace(rest[0]) && rest[0] != SLASH
    ensures Accepts(GapEnd(q, [SLASH]), rest)
    decreases |s|
  {
    hide Trans;
    if s == [] {
      Unfinished(Commented(q));
    }
    CommentSteps(q, s[0]);
    Alive(Commented(q), s);
    var p := GapEnd(q, [SLASH]);
    if s[0] == NEWLINE {
      g, rest := ParseGap(p, s[1..]);
      assert !IsSpaces([SLASH]) by { assert SLASH in [SLASH]; }
      assert GapEnd(p, g) == p;
    } else {
      g, rest := ParseComment(q, s[1..]);
    }
    g := [s[0]] + g;
  }

  /** White space before the colon of a key. */
  lemma {:induction false} ParseSpaces(q: Conf, s: bytes) returns (g: bytes, rest: bytes)
    requires q.step.EndValue? && q.stack != [] && !q.endTop && Accepts(q, s)
    ensures s == g + rest && IsSpaces(g) && rest != [] && !IsSpace(rest[0]) && Accepts(q, rest)
    decreases |s|
  {
    if s == [] {
      Unfinished(q);
    }
    Alive(q, s);
    if IsSpace(s[0]) {
      g, rest := ParseSpaces(q, s[1..]);
      g := [s[0]] + g;
    } else {
      g, rest := [], s;
    }
  }

  /** Only white space follows the top-level value. */
  lemma {:induction false} ParseTail(s: bytes)
    requires Accepts(Ended([]), s)
    ensures IsSpaces(s)
    decreases s
  {
    if s != [] {
      Alive(Ended([]), s);
      ParseTail(s[1..]);
      assert s == [s[0]] + s[1..];
    }
  }

  // ---------- literals ----------

  lemma {:induction false} ParseBody(q: Conf, s: bytes) returns (body: bytes, rest: bytes)
    requires q.step.InString? && !q.endTop && Accepts(q, s)
    ensures s == body + [QUOTE] + rest && IsStringBody(body) && Accepts(q.(step := EndValue), rest)
    decreases |s|
  {
    hide Trans;
    if s == [] {
      Unfinished(q);
    }
    AliveInside(q, s);
    if s[0] == QUOTE {
      body, rest := [], s[1..];
    } else if s[0] != BACKSLASH {
      body, rest := ParseBody(q, s[1..]);
      body := [s[0]] + body;
    } else {
      var n := ParseEscape(q, s);
      body, rest := ParseBody(q, s[n..]);
      ConsEscape(s[..n], body);
      body := s[..n] + body;
    }
  }

  lemma ConsEscape(e: bytes, body: bytes)
    requires IsStringBody(e) && e != [] && e[0] == BACKSLASH && IsStringBody(body)
    requires |e| == if |e| > 1 && e[1] == LOWER_U then 6 else 2
    ensures IsStringBody(e + body)
  {
    hide Trans;
    assert (e + body)[|e|..] == body;
  }

  function HexNext(step: Step): Step {
    if step.InStringEscU? then InStringEscU1
    else if step.InStringEscU1? then InStringEscU12
    else if step.InStringEscU12? then InStringEscU123
    else InString
  }

  lemma HexStep(q: Conf, s: bytes)
    requires q.step.InStringEscU? || q.step.InStringEscU1? || q.step.InStringEscU12? || q.step.InStringEscU123?
    requires !q.endTop && Accepts(q, s)
    ensures s != [] && IsHex(s[0]) && Accepts(q.(step := HexNext(q.step)), s[1..])
  {
    hide Trans;
    if s == [] {
      Unfinished(q);
    } else {
      AliveInside(q, s);
    }
  }

  /** The four hexadecimal digits of an escape. */
  lemma ParseHexes(q: Conf, s: bytes)
    requires q.step.InStringEscU? && !q.endTop && Accepts(q, s)
    ensures |s| >= 4 && IsHex(s[0]) && IsHex(s[1]) && IsHex(s[2]) && IsHex(s[3])
    ensures Accepts(q.(step := InString), s[4..])
  {
    hide Trans;
    HexStep(q, s);
    HexStep(q.(step := InStringEscU1), s[1..]);
    HexStep(q.(step := InStringEscU12), s[1..][1..]);
    HexStep(q.(step := InStringEscU123), s[1..][1..][1..]);
    assert s[1..][1..] == s[2..] && s[2..][1..] == s[3..] && s[3..][1..] == s[4..];
  }

  /** An escape sequence of two or six bytes. */
  lemma ParseEscape(q: Conf, s: bytes) returns (n: nat)
    requires q.step.InString? && !q.endTop && Accepts(q, s) && s != [] && s[0] == BACKSLASH
    ensures n <= |s| && IsStringBody(s[..n]) && Accepts(q, s[n..])
    ensures |s| > 1 && n == if s[1] == LOWER_U then 6 else 2
  {
    hide Trans;
    var p := q.(step := InStringEsc);
    AliveInside(q, s);
    if s[1..] == [] {
      Unfinished(p);
    }
    AliveInside(p, s[1..]);
    assert s[1..][1..] == s[2..];
    if s[1] != LOWER_U {
      n := 2;
    } else {
      n := 6;
      ParseHexes(q.(step := InStringEscU), s[2..]);
      assert s[2..][4..] == s[6..];
      assert IsStringBody(s[..6][6..]);
    }
  }

  lemma ParseString(q: Conf, s: bytes) returns (text: bytes, rest: bytes)
    requires AtValueStart(q) || AtKeyStart(q)
    requires s != [] && s[0] == QUOTE && Accepts(q, s)
    ensures s == text + rest && IsString(text) && Accepts(Ended(q.stack), rest)
  {
    hide Trans;
    AliveFirst(q, s);
    var body;
    body, rest := ParseBody(q.(step := InString), s[1..]);
    text := [QUOTE] + body + [QUOTE];
    assert text[1..|text| - 1] == body;
    LeaveSettles(q.(step := EndValue), rest);
  }

  /** A longest run of digits. */
  lemma {:induction false} ParseDigits(q: Conf, s: bytes) returns (ds: bytes, rest: bytes)
    requires (q.step.Int1? || q.step.Point0? || q.step.Exp0?) && Accepts(q, s)
    ensures s == ds + rest && (forall c | c in ds :: IsDigit(c)) && Accepts(q, rest)
    ensures rest == [] || !IsDigit(rest[0])
    decreases s
  {
    hide Trans;
    if s != [] && IsDigit(s[0]) {
      AliveInside(q, s);
      ds, rest := ParseDigits(q, s[1..]);
      ds := [s[0]] + ds;
    } else {
      ds, rest := [], s;
    }
  }

  /** At least one digit: the first leads to `next`, which takes the others. */
  lemma ParseSomeDigits(q: Conf, next: Step, s: bytes) returns (ds: bytes, rest: bytes)
    requires (q.step.Point? && next.Point0?) || (q.step.ExpSign? && next.Exp0?)
    requires !q.endTop && Accepts(q, s)
    ensures s == ds + rest && IsDigits(ds) && Accepts(q.(step := next), rest)
    ensures rest == [] || !IsDigit(rest[0])
  {
    hide Trans;
    if s == [] {
      Unfinished(q);
    }
    AliveInside(q, s);
    ds, rest := ParseDigits(q.(step := next), s[1..]);
    ds := [s[0]] + ds;
  }

  /** The sign of an exponent, if any. */
  lemma ParseSign(q: Conf, s: bytes) returns (sign: bytes, rest: bytes)
    requires q.step.Exp? && !q.endTop && Accepts(q, s)
    ensures s == sign + rest && (sign == [] || sign == [PLUS] || sign == [MINUS])
    ensures Accepts(q.(step := ExpSign), rest)
  {
    hide Trans;
    if s == [] {
      Unfinished(q);
    }
    AliveInside(q, s);
    if s[0] == PLUS || s[0] == MINUS {
      sign, rest := [s[0]], s[1..];
    } else {
      sign, rest := [], s;
      TransInLiteral(q.(step := ExpSign), s[0]);
    }
  }

  lemma Regroup(a: bytes, s: bytes, b: bytes, t: bytes, c: bytes, rest: bytes)
    requires s == b + t && t == c + rest
    ensures a + s == (a + b + c) + rest
  {
    hide Trans;
    Assoc(a, b, t);
    Assoc(a + b, c, rest);
  }

  /** An exponent, after its `e`. */
  lemma ParseMarked(q: Conf, e: byte, s: bytes) returns (exp: bytes, rest: bytes)
    requires q.step.Exp? && !q.endTop && Accepts(q, s) && (e == LOWER_E || e == UPPER_E)
    ensures [e] + s == exp + rest && IsExponent(exp) && Accepts(Ended(q.stack), rest)
  {
    hide Trans;
    var sign, tail := ParseSign(q, s);
    var ds;
    ds, rest := ParseSomeDigits(q.(step := ExpSign), Exp0, tail);
    exp := [e] + sign + ds;
    assert exp[1..] == sign + ds && (sign != [] ==> exp[2..] == ds);
    Regroup([e], s, sign, tail, ds, rest);
    LeaveSettles(q.(step := Exp0), rest);
  }

  lemma ParseExponent(q: Conf, s: bytes) returns (exp: bytes, rest: bytes)
    requires (q.step.Int0? || q.step.Int1? || q.step.Point0?) && !q.endTop && Accepts(q, s)
    requires s == [] || Lex(q.step, s[0]).Leave? || s[0] == LOWER_E || s[0] == UPPER_E
    ensures s == exp + rest && (exp == [] || IsExponent(exp)) && Accepts(Ended(q.stack), rest)
  {
    hide Trans;
    if s == [] || Lex(q.step, s[0]).Leave? {
      exp, rest := [], s;
      LeaveSettles(q, s);
    } else {
      AliveInside(q, s);
      exp, rest := ParseMarked(q.(step := Exp), s[0], s[1..]);
    }
  }

  lemma ParseFraction(q: Conf, s: bytes) returns (frac: bytes, exp: bytes, rest: bytes)
    requires (q.step.Int0? || q.step.Int1?) && !q.endTop && Accepts(q, s)
    requires s == [] || q.step.Int0? || !IsDigit(s[0])
    ensures s == frac + exp + rest && Accepts(Ended(q.stack), rest)
    ensures (frac == [] || (frac[0] == DOT && IsDigits(frac[1..]))) && (exp == [] || IsExponent(exp))
  {
    hide Trans;
    if s != [] && s[0] == DOT {
      AliveInside(q, s);
      var ds, tail := ParseSomeDigits(q.(step := Point), Point0, s[1..]);
      frac := [DOT] + ds;
      exp, rest := ParseExponent(q.(step := Point0), tail);
      assert s == [DOT] + s[1..];
    } else {
      frac := [];
      exp, rest := ParseExponent(q, s);
    }
  }

  /** The integer part of a number, after its first digit. */
  lemma ParseWhole(q: Conf, first: byte, s: bytes) returns (whole: bytes, rest: bytes)
    requires IsDigit(first) && q.step == (if first == ZERO then Int0 else Int1) && Accepts(q, s)
    ensures [first] + s == whole + rest && IsDigits(whole) && (whole[0] == ZERO ==> |whole| == 1)
    ensures Accepts(q, rest) && (rest == [] || q.step.Int0? || !IsDigit(rest[0]))
  {
    hide Trans;
    if first == ZERO {
      whole, rest := [first], s;
    } else {
      var ds;
      ds, rest := ParseDigits(q, s);
      whole := [first] + ds;
    }
  }

  lemma ParseUnsigned(q: Conf, minus: bytes, first: byte, s: bytes) returns (text: bytes, rest: bytes)
    requires IsDigit(first) && q.step == (if first == ZERO then Int0 else Int1) && !q.endTop && Accepts(q, s)
    requires minus == [] || minus == [MINUS]
    ensures minus + [first] + s == text + rest && text != [] && IsNumber(text) && Accepts(Ended(q.stack), rest)
  {
    hide Trans;
    var whole, tail := ParseWhole(q, first, s);
    var frac, exp;
    frac, exp, rest := ParseFraction(q, tail);
    var n := Number(minus, whole, frac, exp);
    text := n.Text();
    assert n.Valid();
    Assoc(minus, [first], s);
    Assoc(frac, exp, rest);
    Regroup(minus, [first] + s, whole, tail, frac, exp + rest);
    Assoc(minus + whole + frac, exp, rest);
  }

  lemma ParseNumber(q: Conf, s: bytes) returns (text: bytes, rest: bytes)
    requires AtValueStart(q) && s != [] && (s[0] == MINUS || IsDigit(s[0])) && Accepts(q, s)
    ensures s == text + rest && text != [] && IsNumber(text) && Accepts(Ended(q.stack), rest)
  {
    hide Trans;
    AliveFirst(q, s);
    if s[0] == MINUS {
      var p := q.(step := Neg);
      if s[1..] == [] {
        Unfinished(p);
      }
      AliveInside(p, s[1..]);
      assert s[1..][1..] == s[2..] && s == [MINUS] + [s[1]] + s[2..];
      text, rest := ParseUnsigned(q.(step := if s[1] == ZERO then Int0 else Int1), [MINUS], s[1], s[2..]);
    } else {
      text, rest := ParseUnsigned(q.(step := if s[0] == ZERO then Int0 else Int1), [], s[0], s[1..]);
    }
  }

  /** The letter a keyword step waits for, and the step after it. */
  function Letter(step: Step): Option<(byte, Step)> {
    match step
    case T => Some((LOWER_R, Tr))
    case Tr => Some((LOWER_U, Tru))
    case Tru => Some((LOWER_E, EndValue))
    case F => Some((LOWER_A, Fa))
    case Fa => Some((LOWER_L, Fal))
    case Fal => Some((LOWER_S, Fals))
    case Fals => Some((LOWER_E, EndValue))
    case N => Some((LOWER_U, Nu))
    case Nu => Some((LOWER_L, Nul))
    case Nul => Some((LOWER_L, EndValue))
    case _ => None
  }

  /** Inside a keyword only one letter is alive. */
  lemma ParseLetter(q: Conf, s: bytes) returns (rest: bytes)
    requires Letter(q.step).Some? && !q.endTop && Accepts(q, s)
    ensures s == [Letter(q.step).value.0] + rest
    ensures Accepts(q.(step := Letter(q.step).value.1), rest)
  {
    hide Trans;
    if s == [] {
      Unfinished(q);
    }
    AliveInside(q, s);
    rest := s[1..];
  }

  /** The rest of a keyword, letter by letter. */
  lemma {:induction false} ParseLetters(q: Conf, word: bytes, s: bytes) returns (rest: bytes)
    requires q.step.EndValue? || Letter(q.step).Some?
    requires !q.endTop && Accepts(q, s) && LexRun(q.step, word) == Some(EndValue)
    ensures s == word + rest && Accepts(Ended(q.stack), rest)
    decreases word
  {
    hide Trans;
    if word == [] {
      rest := s;
      LeaveSettles(q, s);
    } else {
      var tail := ParseLetter(q, s);
      rest := ParseLetters(q.(step := Letter(q.step).value.1), word[1..], tail);
    }
  }

  lemma ParseKeyword(q: Conf, first: Step, word: bytes, s: bytes) returns (rest: bytes)
    requires AtValueStart(q) && word != [] && s != [] && s[0] == word[0] && Accepts(q, s)
    requires FirstStep(word[0]) == Some(first) && Letter(first).Some? && LexRun(first, word[1..]) == Some(EndValue)
    ensures s == word + rest && Accepts(Ended(q.stack), rest)
  {
    hide Trans;
    AliveFirst(q, s);
    rest := ParseLetters(q.(step := first), word[1..], s[1..]);
    assert word == [word[0]] + word[1..];
  }

  lemma ParseWord(q: Conf, s: bytes) returns (text: bytes, rest: bytes)
    requires AtValueStart(q) && s != [] && (s[0] == LOWER_T || s[0] == LOWER_F || s[0] == LOWER_N) && Accepts(q, s)
    ensures s == text + rest && (text == TRUE || text == FALSE || text == NULL)
    ensures Accepts(Ended(q.stack), rest)
  {
    hide Trans;
    if s[0] == LOWER_T {
      LexTrue();
      text := TRUE;
      rest := ParseKeyword(q, T, TRUE, s);
    } else if s[0] == LOWER_N {
      LexNull();
      text := NULL;
      rest := ParseKeyword(q, N, NULL, s);
    } else {
      LexFalse();
      text := FALSE;
      rest := ParseKeyword(q, F, FALSE, s);
    }
  }

  lemma ParseLiteral(q: Conf, s: bytes) returns (text: bytes, rest: bytes)
    requires AtValueStart(q) && s != [] && FirstStep(s[0]).Some? && Accepts(q, s)
    ensures s == text + rest && text != [] && IsLiteral(text) && Accepts(Ended(q.stack), rest)
  {
    hide Trans;
    if s[0] == QUOTE {
      text, rest := ParseString(q, s);
    } else if s[0] == MINUS || IsDigit(s[0]) {
      text, rest := ParseNumber(q, s);
    } else {
      text, rest := ParseWord(q, s);
    }
  }

  // ---------- values ----------

  lemma {:induction false} ParseValue(q: Conf, s: bytes) returns (v: Value, rest: bytes)
    requires AtValueStart(q) && Token(s) && s[0] != RBRACKET && Accepts(q, s)
    ensures WfValue(v) && s == YieldValue(v) + rest && Accepts(Ended(q.stack), rest)
    ensures |rest| < |s|
    decreases |s|, 1
  {
    hide Trans;
    AliveValue(q, s);
    if s[0] == LBRACKET {
      v, rest := ParseArray(q, s[1..]);
    } else if s[0] == LBRACE {
      v, rest := ParseObject(q, s[1..]);
    } else {
      var text;
      text, rest := ParseLiteral(q, s);
      v := Literal(text);
    }
  }

  /** An array, after its opening bracket. */
  lemma {:induction false} ParseArray(q: Conf, s: bytes) returns (v: Value, rest: bytes)
    requires AtValueStart(q) && Accepts(Conf(BeginValueOrEmpty, q.stack + [ArrayValue], false), s)
    ensures WfValue(v) && [LBRACKET] + s == YieldValue(v) + rest && Accepts(Ended(q.stack), rest)
    ensures |rest| <= |s|
    decreases |s|, 5
  {
    hide Trans, Run, IsGap, YieldElements, WfElements, YieldValue, WfValue;
    var p := Conf(BeginValueOrEmpty, q.stack + [ArrayValue], false);
    var gap, tail := ParseGap(p, s);
    AliveValue(GapEnd(p, gap), tail);
    if tail[0] == RBRACKET {
      v, rest := EmptyArray(gap), tail[1..];
      EmptyArrayText(s, gap, tail);
    } else {
      var es;
      es, rest := ParseElements(p, q.stack, gap, tail);
      v := Array(es);
      ArrayText(s, es, rest);
    }
  }

  lemma EmptyArrayText(s: bytes, gap: bytes, tail: bytes)
    requires s == gap + tail && IsGap(gap) && tail != [] && tail[0] == RBRACKET
    ensures var v := EmptyArray(gap); WfValue(v) && [LBRACKET] + s == YieldValue(v) + tail[1..]
    ensures |tail[1..]| <= |s|
  {
    hide IsGap;
    Regroup([LBRACKET], s, gap, tail, [RBRACKET], tail[1..]);
  }

  lemma ArrayText(s: bytes, es: Elements, rest: bytes)
    requires WfElements(es) && s == YieldElements(es) + ([RBRACKET] + rest)
    ensures var v := Array(es); WfValue(v) && [LBRACKET] + s == YieldValue(v) + rest
    ensures |rest| <= |s|
  {
    hide WfElements, YieldElements;
    Regroup([LBRACKET], s, YieldElements(es), [RBRACKET] + rest, [RBRACKET], rest);
  }

  /** A gap already read, and then an element from its first token on. */
  lemma {:induction false} ParseElement(q: Conf, before: bytes, s: bytes) returns (e: Element, rest: bytes)
    requires AtValueStart(q) && q.stack != [] && IsGap(before)
    requires Token(s) && s[0] != RBRACKET && Accepts(q, s)
    ensures WfElement(e) && before + s == YieldElement(e) + rest && Accepts(Ended(q.stack), rest)
    ensures Token(rest) && |rest| < |s|
    decreases |s|, 2
  {
    hide Trans;
    var v, tail := ParseValue(q, s);
    var after;
    after, rest := ParseGap(Ended(q.stack), tail);
    e := Element(before, v, after);
    Regroup(before, s, YieldValue(v), tail, after, rest);
  }

  lemma {:induction false} ParseElements(q: Conf, outer: seq<ParseState>, before: bytes, s: bytes)
    returns (es: Elements, rest: bytes)
    requires AtValueStart(q) && q.stack == outer + [ArrayValue] && IsGap(before)
    requires Token(s) && s[0] != RBRACKET && Accepts(q, s)
    ensures WfElements(es) && before + s == YieldElements(es) + ([RBRACKET] + rest)
    ensures Accepts(Ended(outer), rest) && |rest| < |s|
    decreases |s|, 3
  {
    hide Trans;
    var e, tail := ParseElement(q, before, s);
    AliveElement(outer, tail);
    if tail[0] == RBRACKET {
      es, rest := Last(e), tail[1..];
    } else {
      var p := Conf(BeginValue, q.stack, false);
      var gap, more := ParseGap(p, tail[1..]);
      AliveValue(GapEnd(p, gap), more);
      if more[0] == RBRACKET {
        es, rest := Trailing(e, gap), more[1..];
        Regroup(YieldElement(e), tail, [COMMA], tail[1..], gap, more);
      } else {
        var others;
        others, rest := ParseElements(GapEnd(p, gap), outer, gap, more);
        es := More(e, others);
        Regroup(YieldElement(e), tail, [COMMA], tail[1..], YieldElements(others), [RBRACKET] + rest);
      }
    }
  }

  /** An object, after its opening brace. */
  lemma {:induction false} ParseObject(q: Conf, s: bytes) returns (v: Value, rest: bytes)
    requires AtValueStart(q) && Accepts(Conf(BeginStringOrEmpty, q.stack + [ObjectKey], false), s)
    ensures WfValue(v) && [LBRACE] + s == YieldValue(v) + rest && Accepts(Ended(q.stack), rest)
    ensures |rest| <= |s|
    decreases |s|, 5
  {
    hide Trans, Run, IsGap, YieldMembers, WfMembers, YieldValue, WfValue;
    var p := Conf(BeginStringOrEmpty, q.stack + [ObjectKey], false);
    var gap, tail := ParseGap(p, s);
    AliveKey(GapEnd(p, gap), tail);
    if tail[0] == RBRACE {
      v, rest := EmptyObject(gap), tail[1..];
      EmptyObjectText(s, gap, tail);
    } else {
      var ms;
      ms, rest := ParseMembers(GapEnd(p, gap), q.stack, gap, tail);
      v := Object(ms);
      ObjectText(s, ms, rest);
    }
  }

  lemma EmptyObjectText(s: bytes, gap: bytes, tail: bytes)
    requires s == gap + tail && IsSpaces(gap) && tail != [] && tail[0] == RBRACE
    ensures var v := EmptyObject(gap); WfValue(v) && [LBRACE] + s == YieldValue(v) + tail[1..]
    ensures |tail[1..]| <= |s|
  {
    hide IsSpaces;
    Regroup([LBRACE], s, gap, tail, [RBRACE], tail[1..]);
  }

  lemma ObjectText(s: bytes, ms: Members, rest: bytes)
    requires WfMembers(ms) && s == YieldMembers(ms) + ([RBRACE] + rest)
    ensures var v := Object(ms); WfValue(v) && [LBRACE] + s == YieldValue(v) + rest
    ensures |rest| <= |s|
  {
    hide WfMembers, YieldMembers;
    Regroup([LBRACE], s, YieldMembers(ms), [RBRACE] + rest, [RBRACE], rest);
  }

  lemma {:induction false} ParseMember(q: Conf, outer: seq<ParseState>, before: bytes, s: bytes)
    returns (m: Member, rest: bytes)
    requires AtKeyStart(q) && q.stack == outer + [ObjectKey] && IsGap(before)
    requires Token(s) && s[0] == QUOTE && Accepts(q, s)
    ensures WfMember(m) && before + s == YieldMember(m) + rest
    ensures Accepts(Ended(outer + [ObjectValue]), rest) && Token(rest) && |rest| < |s|
    decreases |s|, 3
  {
    hide Trans;
    var key, tail := ParseString(q, s);
    var colon, tail2 := ParseSpaces(Ended(q.stack), tail);
    AliveColon(outer, tail2);
    var p := Conf(BeginValue, outer + [ObjectValue], false);
    var gap, tail3 := ParseGap(p, tail2[1..]);
    AliveValue(GapEnd(p, gap), tail3);
    var e;
    e, rest := ParseElement(GapEnd(p, gap), gap, tail3);
    m := Member(before, key, colon, e);
    Regroup(before, s, key, tail, colon, tail2);
    Regroup(before + key + colon, tail2, [COLON], tail2[1..], YieldElement(e), rest);
  }

  lemma {:induction false} ParseMembers(q: Conf, outer: seq<ParseState>, before: bytes, s: bytes)
    returns (ms: Members, rest: bytes)
    requires AtKeyStart(q) && q.stack == outer + [ObjectKey] && IsGap(before)
    requires Token(s) && s[0] == QUOTE && Accepts(q, s)
    ensures WfMembers(ms) && before + s == YieldMembers(ms) + ([RBRACE] + rest)
    ensures Accepts(Ended(outer), rest) && |rest| < |s|
    decreases |s|, 4
  {
    hide Trans;
    var m, tail := ParseMember(q, outer, before, s);
    var p := Ended(outer + [ObjectValue]);
    AliveMember(outer, tail);
    if tail[0] == RBRACE {
      ms, rest := LastMember(m), tail[1..];
    } else {
      var r := Conf(BeginString, outer + [ObjectKey], false);
      var gap, more := ParseGap(r, tail[1..]);
      AliveKey(GapEnd(r, gap), more);
      var others;
      others, rest := ParseMembers(GapEnd(r, gap), outer, gap, more);
      ms := MoreMembers(m, others);
      Regroup(YieldMember(m), tail, [COMMA], tail[1..], YieldMembers(others), [RBRACE] + rest);
    }
  }

  lemma ParseDocument(s: bytes) returns (d: Document)
    requires Accepts(INIT, s)
    ensures WfDocument(d) && Yield(d) == s
  {
    hide Trans;
    var before, tail := ParseGap(INIT, s);
    AliveValue(GapEnd(INIT, before), tail);
    var v, after := ParseValue(GapEnd(INIT, before), tail);
    ParseTail(after);
    d := Document(before, v, after);
    Regroup(before, s[|before|..], YieldValue(v), after, after, []);
  }

  /** The language of the scanner is the language of the grammar. */
  lemma Language(s: bytes)
    ensures Accepts(INIT, s) <==> IsJson(s)
  {
    hide Trans;
    if Accepts(INIT, s) {
      var d := ParseDocument(s);
    }
    if IsJson(s) {
      var d: Document :| WfDocument(d) && Yield(d) == s;
      DocumentReads(d);
    }
  }
}
