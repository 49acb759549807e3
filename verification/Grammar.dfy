/**
 The language of the scanner: section 2 of RFC 4627 with any value at top level, plus `//` comments
 before a value, before a key, and after a member or an element. A document is given as a concrete
 syntax tree; the text it stands for is its yield.
 */
module Grammar {
  import opened Bytes

  // ---------- gaps ----------

  predicate IsSpaces(s: bytes) {
    forall c | c in s :: IsSpace(c)
  }

  /** White space and comments. */
  predicate IsGap(s: bytes) {
    if s == [] then true
    else if IsSpace(s[0]) then IsGap(s[1..])
    else |s| >= 2 && s[0] == SLASH && s[1] == SLASH && IsComment(s[2..])
  }

  /** The rest of a comment, its newline, and the gap after it. */
  predicate IsComment(s: bytes) {
    s != [] && if s[0] == NEWLINE then IsGap(s[1..]) else IsComment(s[1..])
  }

  // ---------- literals ----------

  const TRUE: bytes := [LOWER_T, LOWER_R, LOWER_U, LOWER_E]
  const FALSE: bytes := [LOWER_F, LOWER_A, LOWER_L, LOWER_S, LOWER_E]
  const NULL: bytes := [LOWER_N, LOWER_U, LOWER_L, LOWER_L]

  /** The text between the quotes of a string. */
  predicate IsStringBody(s: bytes) {
    if s == [] then true
    else if s[0] != BACKSLASH then s[0] >= SPACE && s[0] != QUOTE && IsStringBody(s[1..])
    else if |s| == 1 then false
    else if s[1] == LOWER_U then
      |s| >= 6 && IsHex(s[2]) && IsHex(s[3]) && IsHex(s[4]) && IsHex(s[5]) && IsStringBody(s[6..])
    else IsEscapeLetter(s[1]) && IsStringBody(s[2..])
  }

  predicate IsString(s: bytes) {
    |s| >= 2 && s[0] == QUOTE && s[|s| - 1] == QUOTE && IsStringBody(s[1..|s| - 1])
  }

  predicate IsDigits(s: bytes) {
    s != [] && forall c | c in s :: IsDigit(c)
  }

  /** `-`? whole ( `.` digits )? ( [eE] [+-]? digits )? ; absent parts are empty. */
  datatype Number = Number(minus: bytes, whole: bytes, frac: bytes, exp: bytes) {
    predicate Valid() {
      && (minus == [] || minus == [MINUS])
      && IsDigits(whole) && (whole[0] == ZERO ==> |whole| == 1)
      && (frac == [] || (frac[0] == DOT && IsDigits(frac[1..])))
      && (exp == [] || IsExponent(exp))
    }

    function Text(): bytes {
      minus + whole + frac + exp
    }
  }

  predicate IsExponent(s: bytes) {
    && |s| >= 2
    && (s[0] == LOWER_E || s[0] == UPPER_E)
    && (IsDigits(s[1..]) || ((s[1] == PLUS || s[1] == MINUS) && IsDigits(s[2..])))
  }

  ghost predicate IsNumber(s: bytes) {
    exists n: Number :: n.Valid() && s == n.Text()
  }

  ghost predicate IsLiteral(s: bytes) {
    s == TRUE || s == FALSE || s == NULL || IsString(s) || IsNumber(s)
  }

  // ---------- values ----------

  datatype Value =
    | Literal(text: bytes)
    | EmptyArray(gap: bytes)
    | Array(elements: Elements)
    | EmptyObject(spaces: bytes)
    | Object(members: Members)

  datatype Element = Element(before: bytes, value: Value, after: bytes)

  /** `Trailing` is the array ending `, comment ]` that the scanner lets through. */
  datatype Elements =
    | Last(e: Element)
    | Trailing(e: Element, hole: bytes)
    | More(e: Element, rest: Elements)

  datatype Member = Member(before: bytes, key: bytes, colon: bytes, e: Element)

  datatype Members =
    | LastMember(m: Member)
    | MoreMembers(m: Member, others: Members)

  datatype Document = Document(before: bytes, value: Value, after: bytes)

  ghost predicate WfValue(v: Value) {
    match v
    case Literal(text) => IsLiteral(text)
    case EmptyArray(gap) => IsGap(gap)
    case Array(es) => WfElements(es)
    case EmptyObject(spaces) => IsSpaces(spaces)
    case Object(ms) => WfMembers(ms)
  }

  ghost predicate WfElement(e: Element) {
    IsGap(e.before) && WfValue(e.value) && IsGap(e.after)
  }

  ghost predicate WfElements(es: Elements) {
    match es
    case Last(e) => WfElement(e)
    case Trailing(e, hole) => WfElement(e) && IsGap(hole) && !IsSpaces(hole)
    case More(e, rest) => WfElement(e) && WfElements(rest)
  }

  ghost predicate WfMember(m: Member) {
    IsGap(m.before) && IsString(m.key) && IsSpaces(m.colon) && WfElement(m.e)
  }

  ghost predicate WfMembers(ms: Members) {
    match ms
    case LastMember(m) => WfMember(m)
    case MoreMembers(m, others) => WfMember(m) && WfMembers(others)
  }

  /** A well-formed text of the language. */
  ghost predicate WfDocument(d: Document) {
    IsGap(d.before) && WfValue(d.value) && IsSpaces(d.after)
  }

  function YieldValue(v: Value): bytes {
    match v
    case Literal(text) => text
    case EmptyArray(gap) => [LBRACKET] + gap + [RBRACKET]
    case Array(es) => [LBRACKET] + YieldElements(es) + [RBRACKET]
    case EmptyObject(spaces) => [LBRACE] + spaces + [RBRACE]
    case Object(ms) => [LBRACE] + YieldMembers(ms) + [RBRACE]
  }

  function YieldElement(e: Element): bytes {
    e.before + YieldValue(e.value) + e.after
  }

  function YieldElements(es: Elements): bytes {
    match es
    case Last(e) => YieldElement(e)
    case Trailing(e, hole) => YieldElement(e) + [COMMA] + hole
    case More(e, rest) => YieldElement(e) + [COMMA] + YieldElements(rest)
  }

  function YieldMember(m: Member): bytes {
    m.before + m.key + m.colon + [COLON] + YieldElement(m.e)
  }

  function YieldMembers(ms: Members): bytes {
    match ms
    case LastMember(m) => YieldMember(m)
    case MoreMembers(m, others) => YieldMember(m) + [COMMA] + YieldMembers(others)
  }

  function Yield(d: Document): bytes {
    d.before + YieldValue(d.value) + d.after
  }

  /** A byte string is JSON (of this dialect) when some well-formed document yields it. */
  ghost predicate IsJson(s: bytes) {
    exists d: Document :: WfDocument(d) && Yield(d) == s
  }
}
