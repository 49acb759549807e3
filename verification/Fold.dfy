/** The comparators of common/json/fold.go, which match a field name against the key of an object. */
module Fold {
  import opened Bytes
  import opened Utf8

  const LONG_S := 0x17F
  const KELVIN := 0x212A

  /** Clears the bit in which the two cases of a letter differ. */
  function Mask(b: byte): byte {
    if b / 0x20 % 2 == 1 then b - 0x20 else b
  }

  predicate IsAscii(s: bytes) {
    forall b | b in s :: b < RUNE_SELF
  }

  predicate IsUpper(b: int) {
    UPPER_A <= b <= UPPER_Z
  }

  predicate IsLower(b: int) {
    LOWER_A <= b <= LOWER_Z
  }

  // ---------- the reference ----------

  /** A rune that folds to the ASCII character `b`: itself, its other case, or one of the two exceptions. */
  predicate Folds(b: byte, r: int) {
    || r == b
    || (IsUpper(b) && r == b + 0x20)
    || (IsLower(b) && r == b - 0x20)
    || ((b == 0x53 || b == LOWER_S) && r == LONG_S)
    || ((b == 0x4B || b == 0x6B) && r == KELVIN)
  }

  /** Equality under folding, rune by rune; a malformed byte of `t` is a rune that matches nothing. */
  predicate EqualFold(s: bytes, t: bytes)
    decreases |s|
  {
    if s == [] then t == []
    else t != [] && Folds(s[0], DecodeRune(t).rune) && EqualFold(s[1..], t[DecodeRune(t).size..])
  }

  // ---------- the comparators ----------

  /** Letters that fold to a rune outside ASCII. */
  predicate IsSpecial(b: byte) {
    Mask(b) == 0x4B || Mask(b) == 0x53
  }

  predicate IsLetter(b: byte) {
    IsUpper(Mask(b))
  }

  lemma MaskFacts(b: byte)
    ensures IsLetter(b) <==> IsUpper(b) || IsLower(b)
    ensures IsSpecial(b) <==> b == 0x4B || b == 0x6B || b == 0x53 || b == 0x73
    ensures b >= RUNE_SELF ==> !IsLetter(b)
  {
  }

  /** Two bytes alike but for the masked bit. */
  lemma MaskEqual(b: byte, c: byte)
    requires IsLetter(b)
    ensures Mask(b) == Mask(c) <==> c == b || (IsUpper(b) && c == b + 0x20) || (IsLower(b) && c == b - 0x20)
  {
  }

  method EqualFoldRight(s: bytes, t0: bytes) returns (equal: bool)
    requires IsAscii(s)
    ensures equal == EqualFold(s, t0)
  {
    var t := t0;
    for i := 0 to |s|
      invariant EqualFold(s, t0) == EqualFold(s[i..], t)
    {
      var sb := s[i];
      assert sb in s && s[i..][0] == sb && s[i..][1..] == s[i + 1..];
      if |t| == 0 {
        return false;
      }
      var tb := t[0];
      MaskFacts(sb);
      DecodeAscii(t);
      if tb < RUNE_SELF {
        if sb != tb {
          var sbUpper := Mask(sb);
          if UPPER_A <= sbUpper && sbUpper <= UPPER_Z {
            MaskEqual(sb, tb);
            if sbUpper != Mask(tb) {
              return false;
            }
          } else {
            return false;
          }
        }
        t := t[1..];
      } else {
        // sb is ASCII and the rune is not: it must be the long s or the Kelvin sign.
        var d := DecodeRune(t);
        if sb == LOWER_S || sb == 0x53 {
          if d.rune != LONG_S {
            return false;
          }
        } else if sb == 0x6B || sb == 0x4B {
          if d.rune != KELVIN {
            return false;
          }
        } else {
          return false;
        }
        t := t[d.size..];
      }
    }
    assert s[|s|..] == [];
    return |t| == 0;
  }

  /** An ASCII byte is a rune of its own; no other byte begins an ASCII rune. */
  lemma DecodeAscii(t: bytes)
    requires t != []
    ensures t[0] < RUNE_SELF ==> DecodeRune(t) == Decoded(t[0], 1)
    ensures t[0] >= RUNE_SELF ==> DecodeRune(t).rune >= RUNE_SELF
  {
    if t[0] >= RUNE_SELF && StartsWell(t) {
      EncodeOfDecode(t);
    }
  }

  // ---------- without the special letters ----------

  predicate NoSpecial(s: bytes) {
    forall b | b in s :: !IsSpecial(b)
  }

  /** What an ordinary ASCII character folds to is a single byte. */
  lemma OrdinaryStep(b: byte, t: bytes)
    requires b < RUNE_SELF && !IsSpecial(b) && t != []
    ensures Folds(b, DecodeRune(t).rune) <==> b == t[0] || (IsLetter(b) && Mask(b) == Mask(t[0]))
    ensures Folds(b, DecodeRune(t).rune) ==> DecodeRune(t).size == 1
  {
    DecodeAscii(t);
    MaskFacts(b);
    if IsLetter(b) {
      MaskEqual(b, t[0]);
    }
  }

  lemma {:induction false} SameLength(s: bytes, t: bytes)
    requires IsAscii(s) && NoSpecial(s) && EqualFold(s, t)
    ensures |s| == |t|
    decreases |s|
  {
    if s != [] {
      assert s[0] in s && forall b | b in s[1..] :: b in s;
      OrdinaryStep(s[0], t);
      SameLength(s[1..], t[1..]);
    }
  }

  method AsciiEqualFold(s: bytes, t: bytes) returns (equal: bool)
    requires IsAscii(s) && NoSpecial(s)
    ensures equal == EqualFold(s, t)
  {
    hide Mask, Folds, IsSpecial, IsLetter;
    if EqualFold(s, t) {
      SameLength(s, t);
    }
    if |s| != |t| {
      return false;
    }
    for i := 0 to |s|
      invariant EqualFold(s, t) == EqualFold(s[i..], t[i..])
    {
      var sb, tb := s[i], t[i];
      assert sb in s;
      FoldStep(s, t, i);
      if sb != tb {
        if (LOWER_A <= sb && sb <= LOWER_Z) || (UPPER_A <= sb && sb <= UPPER_Z) {
          if Mask(sb) != Mask(tb) {
            return false;
          }
        } else {
          return false;
        }
      }
    }
    assert s[|s|..] == [] && t[|s|..] == [];
    return true;
  }

  /** One byte more on both sides. */
  lemma FoldStep(s: bytes, t: bytes, i: nat)
    requires i < |s| == |t| && s[i] < RUNE_SELF && !IsSpecial(s[i])
    ensures IsLetter(s[i]) <==> IsUpper(s[i]) || IsLower(s[i])
    ensures EqualFold(s[i..], t[i..]) <==>
      (s[i] == t[i] || (IsLetter(s[i]) && Mask(s[i]) == Mask(t[i]))) && EqualFold(s[i + 1..], t[i + 1..])
  {
    MaskFacts(s[i]);
    assert s[i..][0] == s[i] && s[i..][1..] == s[i + 1..] && t[i..][0] == t[i] && t[i..][1..] == t[i + 1..];
    OrdinaryStep(s[i], t[i..]);
  }

  method SimpleLetterEqualFold(s: bytes, t: bytes) returns (equal: bool)
    requires NoSpecial(s) && AllLetters(s)
    ensures equal == EqualFold(s, t)
  {
    hide Mask, Folds, IsSpecial, IsLetter;
    LettersAreAscii(s);
    if EqualFold(s, t) {
      SameLength(s, t);
    }
    if |s| != |t| {
      return false;
    }
    for i := 0 to |s|
      invariant EqualFold(s, t) == EqualFold(s[i..], t[i..])
    {
      assert s[i] in s;
      FoldStep(s, t, i);
      if Mask(s[i]) != Mask(t[i]) {
        return false;
      }
    }
    assert s[|s|..] == [] && t[|s|..] == [];
    return true;
  }

  lemma LettersAreAscii(s: bytes)
    requires AllLetters(s)
    ensures IsAscii(s)
  {
    forall b | b in s ensures b < RUNE_SELF {
      MaskFacts(b);
    }
  }

  // ---------- the choice ----------

  datatype Comparator = Library | Right | Ascii | Letters

  /** What each comparator asks of the name it was chosen for. */
  predicate Suits(c: Comparator, s: bytes) {
    match c
    case Library => !IsAscii(s)
    case Right => IsAscii(s) && !NoSpecial(s)
    case Ascii => IsAscii(s) && NoSpecial(s) && !AllLetters(s)
    case Letters => NoSpecial(s) && AllLetters(s)
  }

  predicate AllLetters(s: bytes) {
    forall b | b in s :: IsLetter(b)
  }

  lemma OneMore(s: bytes, b: byte)
    ensures NoSpecial(s + [b]) <==> NoSpecial(s) && !IsSpecial(b)
    ensures AllLetters(s + [b]) <==> AllLetters(s) && IsLetter(b)
  {
    assert forall c | c in s :: c in s + [b];
    assert b in s + [b];
  }

  method FoldFunc(s: bytes) returns (c: Comparator)
    ensures Suits(c, s)
  {
    hide Mask;
    var nonLetter, special := false, false;
    for i := 0 to |s|
      invariant forall b | b in s[..i] :: b < RUNE_SELF
      invariant special <==> !NoSpecial(s[..i])
      invariant nonLetter <==> !AllLetters(s[..i])
    {
      var b := s[i];
      assert s[..i + 1] == s[..i] + [b] && b in s;
      OneMore(s[..i], b);
      if b >= RUNE_SELF {
        return Library;
      }
      var upper := Mask(b);
      SpecialIsLetter(b);
      if upper < UPPER_A || upper > UPPER_Z {
        nonLetter := true;
      } else if upper == 0x4B || upper == 0x53 {
        special := true;
      }
    }
    assert s[..|s|] == s;
    c := if special then Right else if nonLetter then Ascii else Letters;
  }

  lemma SpecialIsLetter(b: byte)
    ensures IsSpecial(b) ==> IsLetter(b)
  {
  }

  /** The comparator chosen for an ASCII name decides equality under folding, against any bytes at all. */
  method MatchName(s: bytes, t: bytes) returns (equal: bool)
    requires IsAscii(s)
    ensures equal == EqualFold(s, t)
  {
    var c := FoldFunc(s);
    if c == Right {
      equal := EqualFoldRight(s, t);
    } else if c == Ascii {
      equal := AsciiEqualFold(s, t);
    } else {
      equal := SimpleLetterEqualFold(s, t);
    }
  }

  // ---------- the reference is an equality ----------

  /** Among ASCII names, folding is reflexive and symmetric. */
  lemma {:induction false} EqualFoldSymmetric(s: bytes, t: bytes)
    requires IsAscii(s) && IsAscii(t)
    ensures EqualFold(s, s) && (EqualFold(s, t) <==> EqualFold(t, s))
    decreases |s|
  {
    if s != [] {
      assert s[0] in s && forall b | b in s[1..] :: b in s;
      DecodeAscii(s);
      if t != [] {
        assert t[0] in t && forall b | b in t[1..] :: b in t;
        DecodeAscii(t);
        EqualFoldSymmetric(s[1..], t[1..]);
      } else {
        EqualFoldSymmetric(s[1..], []);
      }
    }
  }

  /** Of what lies beyond ASCII, `k` matches the Kelvin sign and `s` the long s, in either case; no other letter any. */
  lemma BeyondAscii(b: byte, t: bytes)
    requires b < 0x80 && t != [] && t[0] >= 0x80
    ensures EqualFold([b], t) <==>
      || ((b == 'k' as int || b == 'K' as int) && t == [0xE2, 0x84, 0xAA])
      || ((b == 's' as int || b == 'S' as int) && t == [0xC5, 0xBF])
  {
    var d := DecodeRune(t);
    DecodeAscii(t);
    SignsSpelled(t);
    assert [b][1..] == [] && t == t[..d.size] + t[d.size..];
    assert EqualFold([b][1..], t[d.size..]) <==> t[d.size..] == [];
  }

  lemma SignsSpelled(t: bytes)
    requires t != []
    ensures DecodeRune(t).rune == KELVIN <==> |t| >= 3 && t[..3] == [0xE2, 0x84, 0xAA]
    ensures DecodeRune(t).rune == KELVIN ==> DecodeRune(t).size == 3
    ensures DecodeRune(t).rune == LONG_S <==> |t| >= 2 && t[..2] == [0xC5, 0xBF]
    ensures DecodeRune(t).rune == LONG_S ==> DecodeRune(t).size == 2
  {
    assert EncodeRune(KELVIN) == [0xE2, 0x84, 0xAA] && EncodeRune(LONG_S) == [0xC5, 0xBF];
    if StartsWell(t) {
      EncodeOfDecode(t);
    }
    if |t| >= 3 && t[..3] == [0xE2, 0x84, 0xAA] {
      assert t[0] == t[..3][0] && t[1] == t[..3][1] && t[2] == t[..3][2];
    }
    if |t| >= 2 && t[..2] == [0xC5, 0xBF] {
      assert t[0] == t[..2][0] && t[1] == t[..2][1];
    }
  }
}
