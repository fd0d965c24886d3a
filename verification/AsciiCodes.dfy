/** The ASCII characters by their septets, literally: section 6.2.1 of 3GPP TS 23.038. */
module AsciiCodes {
  import opened Wrappers
  import opened Alphabet
  import opened Messages

  lemma SymbolCodes(k: nat)
    requires k < 32 && SYMBOLS[k] < '\U{80}'
    ensures (SYMBOLS[k], k) in {('@', 0), ('$', 2), ('\n', 10), ('\r', 13), ('_', 17), ('\U{1B}', 27)}
  {
  }

  lemma LetterCodes(k: nat)
    requires k < 26
    ensures LETTERS[k] as int == 65 + k && SMALL_LETTERS[k] as int == 97 + k
  {
  }

  lemma SignCodes(k: nat)
    requires k < 27
    ensures SIGNS[k] as int == 37 + k
  {
  }

  lemma SignsAt(code: nat)
    requires 37 <= code < 64
    ensures BASIC[code] as int == code
  {
    SignCodes(code - 37);
    assert FROM_SPACE[code - 32] == SIGNS[code - 37];
  }

  lemma LettersAt(code: nat)
    requires 65 <= code < 91
    ensures BASIC[code] as int == code
  {
    LetterCodes(code - 65);
    assert FROM_SPACE[code - 32] == LETTERS[code - 65];
  }

  lemma SmallLettersAt(code: nat)
    requires 97 <= code < 123
    ensures BASIC[code] as int == code
  {
    LetterCodes(code - 97);
    assert FROM_SPACE[code - 32] == SMALL_LETTERS[code - 97];
  }

  lemma FirstAt(code: nat)
    requires 32 <= code < 36
    ensures BASIC[code] as int == code
  {
    assert BASIC[32] == ' ' && BASIC[33] == '!' && BASIC[34] == '"' && BASIC[35] == '#';
  }

  /** The places of wider characters. */
  lemma WideCodes(code: nat)
    requires code == 36 || code == 64 || 91 <= code <= 96 || 123 <= code < 128
    ensures BASIC[code] >= '\U{80}'
  {
    assert BASIC[36] == '\U{A4}' && BASIC[64] == '\U{A1}' && BASIC[96] == '\U{BF}';
    assert BASIC[91] == '\U{C4}' && BASIC[92] == '\U{D6}' && BASIC[93] == '\U{D1}' && BASIC[94] == '\U{DC}';
    assert BASIC[95] == '\U{A7}';
    assert BASIC[123] == '\U{E4}' && BASIC[124] == '\U{F6}' && BASIC[125] == '\U{F1}' && BASIC[126] == '\U{FC}';
    assert BASIC[127] == '\U{E0}';
  }

  /** Behind the symbols an ASCII character stands at its own code. */
  lemma LaterCodes(code: nat)
    requires 32 <= code < 128 && BASIC[code] < '\U{80}'
    ensures BASIC[code] as int == code && HasAsciiCode(BASIC[code])
  {
    if code < 36 {
      FirstAt(code);
    } else if 37 <= code < 64 {
      SignsAt(code);
    } else if 65 <= code < 91 {
      LettersAt(code);
    } else if 97 <= code < 123 {
      SmallLettersAt(code);
    } else {
      WideCodes(code);
    }
  }

  /** The code at which an ASCII character stands, if it stands at one. */
  lemma CodeOf(c: char, code: nat)
    requires c < '\U{80}' && code < 128 && BASIC[code] == c
    ensures (HasAsciiCode(c) && code == c as int) || (c, code) in {('@', 0), ('$', 2), ('_', 17), ('\U{1B}', 27)}
  {
    if code < 32 {
      assert BASIC[code] == SYMBOLS[code];
      SymbolCodes(code);
    } else {
      LaterCodes(code);
    }
  }

  /** The code of a character's second septet, if it is one of the extension table. */
  function ExtensionCode(c: char): (code: Option<nat>) {
    match c
    case '\U{C}' => Some(0x0A)
    case '^' => Some(0x14)
    case '{' => Some(0x28)
    case '}' => Some(0x29)
    case '\\' => Some(0x2F)
    case '[' => Some(0x3C)
    case '~' => Some(0x3D)
    case ']' => Some(0x3E)
    case '|' => Some(0x40)
    case _ => None
  }

  lemma ExtensionAt(i: nat)
    requires i < |EXTENSION| && EXTENSION[i] < '\U{80}'
    ensures i < |EXTENSION_CODES| && ExtensionCode(EXTENSION[i]) == Some(EXTENSION_CODES[i])
  {
  }

  lemma InExtension(c: char)
    requires ExtensionCode(c).Some?
    ensures c in EXTENSION
  {
    assert EXTENSION[0] == '\U{C}' && EXTENSION[1] == '^' && EXTENSION[2] == '{' && EXTENSION[3] == '}';
    assert EXTENSION[4] == '\\' && EXTENSION[5] == '[' && EXTENSION[6] == '~' && EXTENSION[7] == ']';
    assert EXTENSION[8] == '|';
  }

  lemma SymbolsAreBasic()
    ensures '@' in BASIC && '$' in BASIC && '_' in BASIC
  {
    assert BASIC[0] == '@' && BASIC[2] == '$' && BASIC[17] == '_';
  }

  /** Every ASCII character by its septets: most by their own code, some behind an escape, and some not at all. */
  lemma AsciiIsExact(c: char)
    requires c < '\U{80}'
    ensures EncodeChar(c) ==
            if HasAsciiCode(c) then Some([c as nat])
            else if c == '@' then Some([0x00])
            else if c == '$' then Some([0x02])
            else if c == '_' then Some([0x11])
            else match ExtensionCode(c) case Some(code) => Some([0x1B, code]) case None => None
  {
    AlphabetSize();
    match Find(c, BASIC) {
      case Some(code) => CodeOf(c, code);
      case None =>
        if HasAsciiCode(c) {
          AsciiIsBasic(c);
        }
        SymbolsAreBasic();
        match Find(c, EXTENSION) {
          case Some(i) => ExtensionAt(i);
          case None =>
            if ExtensionCode(c).Some? {
              InExtension(c);
            }
        }
    }
  }
}
