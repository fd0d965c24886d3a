/** Hexadecimal text as the hex crate writes and reads it. */
module Hex {
  import opened Wrappers
  import opened BitStream
  import opened Sequences
  import opened Text

  function Digit(d: nat): char
    requires d < 16
  {
    if d < 10 then '0' + d as char else 'a' + (d - 10) as char
  }

  function DigitValue(c: char): (value: Option<nat>)
    ensures value.Some? ==> value.value < 16
  {
    if '0' <= c <= '9' then Some((c - '0') as nat)
    else if 'a' <= c <= 'f' then Some((c - 'a') as nat + 10)
    else if 'A' <= c <= 'F' then Some((c - 'A') as nat + 10)
    else None
  }

  /** The digits, literally. */
  lemma DigitIsLiteral(d: nat, c: char)
    requires d < 16
    ensures Digit(d) == "0123456789abcdef"[d]
    ensures DigitValue(c) == Some(d) <==> c == "0123456789abcdef"[d] || c == "0123456789ABCDEF"[d]
  {
    if d < 10 {
      assert "0123456789abcdef"[d] == '0' + d as char && "0123456789ABCDEF"[d] == '0' + d as char;
    } else {
      assert "0123456789abcdef"[d] == 'a' + (d - 10) as char && "0123456789ABCDEF"[d] == 'A' + (d - 10) as char;
    }
  }

  function Octet(value: nat): (hex: string)
    ensures |hex| == 2
  {
    [Digit(value / 16 % 16), Digit(value % 16)]
  }

  function Encode(octets: seq<nat>): (hex: string)
    ensures |hex| == 2 * |octets|
  {
    if octets == [] then "" else Octet(octets[0]) + Encode(octets[1..])
  }

  /** One octet from its two digits, as `from_hex` reads an array of one byte. */
  function DecodeOne(pair: string): (octet: Option<nat>)
    requires |pair| == 2
  {
    match (DigitValue(pair[0]), DigitValue(pair[1]))
    case (Some(high), Some(low)) => Some(16 * high + low)
    case _ => None
  }

  /** None for an odd number of characters or a character that is not a digit of either case. */
  function Decode(hex: string): (octets: Option<seq<nat>>) {
    if hex == "" then Some([])
    else if |hex| == 1 then None
    else
      match (DigitValue(hex[0]), DigitValue(hex[1]), Decode(hex[2..]))
      case (Some(high), Some(low), Some(rest)) => Some([16 * high + low] + rest)
      case _ => None
  }

  lemma DigitOf(d: nat)
    requires d < 16
    ensures DigitValue(UpperChar(Digit(d))) == Some(d)
    ensures DigitValue(LowerChar(UpperChar(Digit(d)))) == Some(d)
  {
  }

  lemma DecodeOneOctet(value: nat)
    requires value < 256
    ensures DecodeOne(Upper(Octet(value))) == Some(value)
  {
    assert value / 16 % 16 == value / 16;
    DigitOf(value / 16);
    DigitOf(value % 16);
  }

  /** What decoding a text says of its first two characters. */
  lemma DecodedPair(high: char, low: char, rest: string)
    requires Decode([high, low] + rest).Some?
    ensures DigitValue(high).Some? && DigitValue(low).Some? && Decode(rest).Some?
    ensures Decode([high, low] + rest).value
         == [16 * DigitValue(high).value + DigitValue(low).value] + Decode(rest).value
  {
    assert ([high, low] + rest)[2..] == rest;
  }

  lemma DecodePair(pair: string, rest: string)
    requires |pair| == 2 && DigitValue(pair[0]).Some? && DigitValue(pair[1]).Some?
    ensures Decode(pair + rest) ==
            match Decode(rest)
            case None => None
            case Some(octets) =>
              Some([16 * DigitValue(pair[0]).value + DigitValue(pair[1]).value] + octets)
  {
    assert (pair + rest)[2..] == rest;
  }

  lemma OctetDigits(value: nat)
    requires value < 256
    ensures 16 * (value / 16) + value % 16 == value && value / 16 % 16 == value / 16 < 16
    ensures Upper(Octet(value)) == [UpperChar(Digit(value / 16)), UpperChar(Digit(value % 16))]
  {
  }

  lemma DecodeUpper(value: nat, rest: string)
    requires value < 256
    requires Decode(rest).Some?
    ensures Decode(Upper(Octet(value)) + rest) == Some([value] + Decode(rest).value)
  {
    OctetDigits(value);
    DigitOf(value / 16);
    DigitOf(value % 16);
    DecodePair(Upper(Octet(value)), rest);
  }

  lemma DecodeLower(value: nat, rest: string)
    requires value < 256
    requires Decode(rest).Some?
    ensures Decode(Lower(Upper(Octet(value))) + rest) == Some([value] + Decode(rest).value)
  {
    OctetDigits(value);
    DigitOf(value / 16);
    DigitOf(value % 16);
    DecodePair(Lower(Upper(Octet(value))), rest);
  }

  lemma CasedEncode(value: nat, rest: seq<nat>)
    ensures Upper(Encode([value] + rest)) == Upper(Octet(value)) + Upper(Encode(rest))
    ensures Lower(Upper(Encode([value] + rest)))
         == Lower(Upper(Octet(value))) + Lower(Upper(Encode(rest)))
  {
    assert ([value] + rest)[1..] == rest;
    UpperAppend(Octet(value), Encode(rest));
    LowerAppend(Upper(Octet(value)), Upper(Encode(rest)));
  }

  /** Whichever case the digits were put into, they are read back as the octets. */
  lemma {:induction false} DecodeEncode(octets: seq<nat>)
    requires Fit(octets, 8)
    ensures Decode(Upper(Encode(octets))) == Some(octets)
    ensures Decode(Lower(Upper(Encode(octets)))) == Some(octets)
  {
    if octets != [] {
      var value, rest := octets[0], octets[1..];
      assert octets == [value] + rest;
      assert Power2(8) == 256;
      DecodeEncode(rest);
      CasedEncode(value, rest);
      DecodeUpper(value, Upper(Encode(rest)));
      DecodeLower(value, Lower(Upper(Encode(rest))));
    }
  }

  /** A text is decoded by its parts. */
  lemma {:induction false} DecodeAppend(a: string, b: string)
    requires |a| % 2 == 0
    ensures Decode(a + b) ==
            if Decode(a).Some? && Decode(b).Some? then Some(Decode(a).value + Decode(b).value) else None
  {
    if a == "" {
      Empty(b);
      if Decode(b).Some? {
        Empty(Decode(b).value);
      }
    } else {
      assert (a + b)[2..] == a[2..] + b && (a + b)[0] == a[0] && (a + b)[1] == a[1];
      DecodeAppend(a[2..], b);
      if Decode(a).Some? && Decode(b).Some? {
        Associative([16 * DigitValue(a[0]).value + DigitValue(a[1]).value], Decode(a[2..]).value, Decode(b).value);
      }
    }
  }
}
