/** The character classes of the source's patterns, written out by code point, and that they are the ones in use. */
module CharacterClasses {
  import opened JsText

  /** White space and line terminators of ECMA-262. */
  const SPACES := {0x9, 0xA, 0xB, 0xC, 0xD, 0x20, 0xA0, 0x1680, 0x2000, 0x2001, 0x2002, 0x2003, 0x2004, 0x2005, 0x2006,
                   0x2007, 0x2008, 0x2009, 0x200A, 0x2028, 0x2029, 0x202F, 0x205F, 0x3000, 0xFEFF}

  /** 0 to 9 */
  predicate AsciiDigit(c: char) {
    0x30 <= c as int <= 0x39
  }

  /** A to Z and a to z */
  predicate AsciiLetter(c: char) {
    0x41 <= c as int <= 0x5A || 0x61 <= c as int <= 0x7A
  }

  /** Digits, letters and the underscore. */
  predicate AsciiWord(c: char) {
    AsciiDigit(c) || AsciiLetter(c) || c as int == 0x5F
  }

  predicate Blank(s: string) {
    forall i :: 0 <= i < |s| ==> s[i] as int in SPACES
  }

  predicate Word(s: string) {
    forall i :: 0 <= i < |s| ==> AsciiWord(s[i])
  }

  predicate DigitsOnly(s: string) {
    forall i :: 0 <= i < |s| ==> AsciiDigit(s[i])
  }

  lemma ClassesAre(c: char)
    ensures IsSpace(c) <==> c as int in SPACES
    ensures IsDigit(c) <==> AsciiDigit(c)
    ensures IsLetter(c) <==> AsciiLetter(c)
    ensures IsWord(c) <==> AsciiWord(c)
    ensures AsciiWord(c) ==> c as int !in SPACES
  {
  }
}
