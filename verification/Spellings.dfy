/** The texts of the JSON package spelled out in their own characters: what each byte of the grammar is for. */
module Spellings {
  import opened Bytes
  import opened Grammar
  import opened Scanning
  import opened Soundness

  type ascii = c: char | c < '\U{80}' witness 'a'

  /** The bytes of an ASCII text. */
  function Ascii(s: seq<ascii>): (b: bytes)
    ensures |b| == |s| && forall i | 0 <= i < |s| :: b[i] == s[i] as int
  {
    if s == [] then [] else [s[0] as int] + Ascii(s[1..])
  }

  lemma LiteralsSpelled()
    ensures TRUE == Ascii("true") && FALSE == Ascii("false") && NULL == Ascii("null")
  {
  }

  lemma PunctuationSpelled()
    ensures [LBRACKET, RBRACKET, LBRACE, RBRACE] == ['[' as int, ']' as int, '{' as int, '}' as int]
    ensures [COMMA, COLON, QUOTE, SLASH] == [',' as int, ':' as int, '"' as int, '/' as int]
    ensures [PLUS, MINUS, DOT, LOWER_E, UPPER_E] == ['+' as int, '-' as int, '.' as int, 'e' as int, 'E' as int]
  {
  }

  // ---------- which bytes may stand where ----------

  /** One byte after another. */
  lemma RunCons(q: Conf, c: byte, s: bytes)
    ensures Run(q, [c] + s) == Run(Trans(q, c).next, s)
  {
    assert ([c] + s)[1..] == s;
  }

  /** Where the scanner is after a short text. */
  lemma RunTwo(q: Conf, a: byte, b: byte)
    ensures Run(q, [a, b]) == Trans(Trans(q, a).next, b).next
  {
    hide Trans;
    RunCons(q, a, [b]);
    RunCons(Trans(q, a).next, b, []);
    assert [a, b] == [a] + [b] && [b] == [b] + [];
  }

  /** The texts of one byte are the digits. */
  lemma OneByteTexts(c: byte)
    ensures IsJson([c]) <==> '0' as int <= c <= '9' as int
  {
    Language([c]);
    RunCons(INIT, c, []);
    assert [c] == [c] + [];
  }

  predicate CanPrecedeZero(c: byte) {
    || c == ' ' as int || c == '\t' as int || c == '\r' as int || c == '\n' as int
    || c == '-' as int || '1' as int <= c <= '9' as int
  }

  /** What can stand before a zero: white space, a minus sign, or a digit other than zero. */
  lemma BeforeZero(c: byte)
    ensures IsJson([c, '0' as int]) <==> CanPrecedeZero(c)
  {
    hide Trans;
    Language([c, ZERO]);
    RunTwo(INIT, c, ZERO);
    if CanPrecedeZero(c) {
      StartStep(c);
    } else {
      NoStartStep(c);
    }
  }

  lemma StartStep(c: byte)
    requires CanPrecedeZero(c)
    ensures EofOk(Trans(Trans(INIT, c).next, ZERO).next)
  {
  }

  lemma NoStartStep(c: byte)
    requires !CanPrecedeZero(c)
    ensures !EofOk(Trans(Trans(INIT, c).next, ZERO).next)
  {
  }

  /** A string of one plain character: anything but a control character, a quote or a backslash. */
  lemma PlainCharacter(c: byte)
    ensures IsJson(['"' as int, c, '"' as int]) <==> 0x20 <= c && c != '"' as int && c != '\\' as int
  {
    hide Trans;
    var s := [QUOTE, c, QUOTE];
    Language(s);
    RunCons(INIT, QUOTE, [c, QUOTE]);
    RunTwo(IN_STRING, c, QUOTE);
    assert s == [QUOTE] + [c, QUOTE];
    OpenQuote();
    StringStep(c);
  }

  const IN_STRING := Conf(InString, [], false)

  lemma OpenQuote()
    ensures Trans(INIT, QUOTE).next == IN_STRING && Trans(IN_STRING, BACKSLASH).next == Conf(InStringEsc, [], false)
  {
  }

  lemma StringStep(c: byte)
    ensures EofOk(Trans(Trans(IN_STRING, c).next, QUOTE).next) <==> c >= SPACE && c != QUOTE && c != BACKSLASH
  {
  }

  /** The letters of an escape. */
  lemma EscapeLetter(c: byte)
    ensures IsJson(['"' as int, '\\' as int, c, '"' as int]) <==>
      || c == '"' as int || c == '\\' as int || c == '/' as int || c == 'b' as int
      || c == 'f' as int || c == 'n' as int || c == 'r' as int || c == 't' as int
  {
    hide Trans;
    var s := [QUOTE, BACKSLASH, c, QUOTE];
    Language(s);
    assert s == [QUOTE] + [BACKSLASH, c, QUOTE] && [BACKSLASH, c, QUOTE] == [BACKSLASH] + [c, QUOTE];
    RunCons(INIT, QUOTE, [BACKSLASH, c, QUOTE]);
    RunCons(IN_STRING, BACKSLASH, [c, QUOTE]);
    RunTwo(Conf(InStringEsc, [], false), c, QUOTE);
    OpenQuote();
    EscapeStep(c);
  }

  lemma EscapeStep(c: byte)
    ensures EofOk(Trans(Trans(Conf(InStringEsc, [], false), c).next, QUOTE).next) <==> IsEscapeLetter(c)
  {
  }

  /** The digits of a hexadecimal escape. */
  lemma HexDigits(c: byte)
    ensures IsJson(Ascii("\"\\u004") + [c, '"' as int]) <==>
      || '0' as int <= c <= '9' as int || 'A' as int <= c <= 'F' as int || 'a' as int <= c <= 'f' as int
  {
    hide Trans;
    var s := Ascii("\"\\u004");
    Language(s + [c, QUOTE]);
    RunSplit(INIT, s, [c, QUOTE]);
    BeforeLastDigit();
    RunTwo(Conf(InStringEscU123, [], false), c, QUOTE);
    HexStep(c);
  }

  lemma BeforeLastDigit()
    ensures Run(INIT, Ascii("\"\\u004")) == Conf(InStringEscU123, [], false)
  {
    hide Trans;
    var s := Ascii("\"\\u004");
    assert s == [QUOTE] + ([BACKSLASH] + ([LOWER_U] + ([ZERO] + ([ZERO] + ([0x34] + [])))));
    RunCons(INIT, QUOTE, s[1..]);
    RunCons(IN_STRING, BACKSLASH, s[2..]);
    RunCons(Conf(InStringEsc, [], false), LOWER_U, s[3..]);
    RunCons(Conf(InStringEscU, [], false), ZERO, s[4..]);
    RunCons(Conf(InStringEscU1, [], false), ZERO, s[5..]);
    RunCons(Conf(InStringEscU12, [], false), 0x34, []);
    OpenQuote();
    EscapeUSteps();
  }

  lemma EscapeUSteps()
    ensures Trans(Conf(InStringEsc, [], false), LOWER_U).next == Conf(InStringEscU, [], false)
    ensures Trans(Conf(InStringEscU, [], false), ZERO).next == Conf(InStringEscU1, [], false)
    ensures Trans(Conf(InStringEscU1, [], false), ZERO).next == Conf(InStringEscU12, [], false)
    ensures Trans(Conf(InStringEscU12, [], false), 0x34).next == Conf(InStringEscU123, [], false)
  {
  }

  lemma HexStep(c: byte)
    ensures EofOk(Trans(Trans(Conf(InStringEscU123, [], false), c).next, QUOTE).next) <==> IsHex(c)
  {
  }

  // ---------- what may follow a value ----------

  lemma TrueReads()
    ensures Run(INIT, TRUE) == Conf(EndValue, [], false)
  {
    hide Trans;
    assert TRUE == [LOWER_T] + ([LOWER_R] + ([LOWER_U] + ([LOWER_E] + [])));
    RunCons(INIT, LOWER_T, TRUE[1..]);
    RunCons(Conf(T, [], false), LOWER_R, TRUE[2..]);
    RunCons(Conf(Tr, [], false), LOWER_U, TRUE[3..]);
    RunCons(Conf(Tru, [], false), LOWER_E, []);
    TrueSteps();
    TrueMiddle();
  }

  lemma TrueSteps()
    ensures Trans(INIT, LOWER_T).next == Conf(T, [], false)
    ensures Trans(Conf(Tru, [], false), LOWER_E).next == Conf(EndValue, [], false)
  {
  }

  lemma TrueMiddle()
    ensures Trans(Conf(T, [], false), LOWER_R).next == Conf(Tr, [], false)
    ensures Trans(Conf(Tr, [], false), LOWER_U).next == Conf(Tru, [], false)
  {
  }

  /** Behind a value at top level there may be white space, and nothing else. */
  lemma TrueThen(s: bytes)
    ensures IsJson(Ascii("true") + s) <==> IsSpaces(s)
  {
    hide Trans;
    LiteralsSpelled();
    TrueReads();
    Language(TRUE + s);
    RunSplit(INIT, TRUE, s);
    if s == [] {
      ValueOver();
    } else {
      EndedThen(s);
      FirstBehind(s[0]);
    }
  }

  lemma ValueOver()
    ensures EofOk(Conf(EndValue, [], false))
  {
  }

  lemma FirstBehind(c: byte)
    ensures Trans(Conf(EndValue, [], false), c) == Trans(Ended([]), c)
  {
  }

  lemma {:induction false} EndedThen(s: bytes)
    ensures EofOk(Run(Ended([]), s)) <==> IsSpaces(s)
    decreases |s|
  {
    if s != [] {
      EndedStep(s[0]);
      assert s == [s[0]] + s[1..];
      hide Trans;
      if IsSpace(s[0]) {
        EndedThen(s[1..]);
      } else {
        DeadForever(Trans(Ended([]), s[0]).next, s[1..]);
      }
    }
  }

  lemma EndedStep(c: byte)
    ensures if IsSpace(c) then Trans(Ended([]), c).next == Ended([]) else Trans(Ended([]), c).next.step.Dead?
  {
  }
}
