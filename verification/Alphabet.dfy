/**
  The GSM 7-bit default alphabet and its extension table, sections 6.2.1 and 6.2.1.1 of 3GPP
  TS 23.038, as the gsm7 crate is taken to implement them. The crate itself is not part of this
  model: that septets outside the tables are refused is an assumption about it.
 */
module Alphabet {
  import opened Wrappers

  const ESCAPE: nat := 0x1B

  const LETTERS: string := "ABCDEFGHIJKLMNOPQRSTUVWXYZ"
  const SMALL_LETTERS: string := "abcdefghijklmnopqrstuvwxyz"
  const SIGNS: string := "%&'()*+,-./0123456789:;<=>?"

  const SYMBOLS: string :=
    "@\U{A3}$\U{A5}\U{E8}\U{E9}\U{F9}\U{EC}\U{F2}\U{C7}\n\U{D8}\U{F8}\r\U{C5}\U{E5}" +
    "\U{394}_\U{3A6}\U{393}\U{39B}\U{3A9}\U{3A0}\U{3A8}\U{3A3}\U{398}\U{39E}\U{1B}\U{C6}\U{E6}\U{DF}\U{C9}"

  const FROM_SPACE: string :=
    " !\"#\U{A4}" + SIGNS +
    "\U{A1}" + LETTERS + "\U{C4}\U{D6}\U{D1}\U{DC}\U{A7}" +
    "\U{BF}" + SMALL_LETTERS + "\U{E4}\U{F6}\U{F1}\U{FC}\U{E0}"

  /** The default alphabet in code order; code 0x1B is the escape to the extension table. */
  const BASIC: string :=
    SYMBOLS + FROM_SPACE

  const EXTENSION: string := "\U{C}^{}\\[~]|\U{20AC}"
  const EXTENSION_CODES: seq<nat> := [0x0A, 0x14, 0x28, 0x29, 0x2F, 0x3C, 0x3D, 0x3E, 0x40, 0x65]

  function Find<T(==)>(x: T, xs: seq<T>): (index: Option<nat>)
    ensures index.Some? ==> index.value < |xs| && xs[index.value] == x
    ensures index.None? ==> x !in xs
  {
    if xs == [] then None
    else if xs[0] == x then Some(0)
    else match Find(x, xs[1..])
      case None => None
      case Some(i) => Some(i + 1)
  }

  lemma AlphabetSize()
    ensures |BASIC| == 128 && |EXTENSION| == |EXTENSION_CODES| == 10
  {
  }

  /** One septet for a character of the default alphabet, two for one of the extension table. */
  function EncodeChar(c: char): (septets: Option<seq<nat>>) {
    AlphabetSize();
    match Find(c, BASIC)
    case Some(code) => if code == ESCAPE then None else Some([code])
    case None =>
      match Find(c, EXTENSION)
      case Some(i) => Some([ESCAPE, EXTENSION_CODES[i]])
      case None => None
  }

  /** The septets of a text, or None when some character has no encoding. */
  function EncodeText(text: string): (septets: Option<seq<nat>>) {
    if text == "" then Some([])
    else match (EncodeChar(text[0]), EncodeText(text[1..]))
      case (Some(first), Some(rest)) => Some(first + rest)
      case _ => None
  }

  /** The characters of a run of septets, or None when some septet has no character. */
  function DecodeSeptets(septets: seq<nat>): (text: Option<string>) {
    AlphabetSize();
    if septets == [] then Some("")
    else if septets[0] >= 128 then None
    else if septets[0] != ESCAPE then
      match DecodeSeptets(septets[1..])
      case Some(rest) => Some([BASIC[septets[0]]] + rest)
      case None => None
    else if |septets| == 1 then None
    else
      match (Find(septets[1], EXTENSION_CODES), DecodeSeptets(septets[2..]))
      case (Some(i), Some(rest)) => Some([EXTENSION[i]] + rest)
      case _ => None
  }

  /** The number of bytes of a text in UTF-8, as Rust's `str::len` counts it. */
  function Bytes(text: string): nat {
    if text == "" then 0 else CharBytes(text[0]) + Bytes(text[1..])
  }

  function CharBytes(c: char): (n: nat)
    ensures 1 <= n <= 4
  {
    if c < '\U{80}' then 1 else if c < '\U{800}' then 2 else if c < '\U{10000}' then 3 else 4
  }
}
