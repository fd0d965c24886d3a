/**
  Sending: what `send_sms` composes, and an independent reading of it as an SMS-SUBMIT after section
  9.2.2.2 of 3GPP TS 23.040.
 */
module Pdu {
  import opened Wrappers
  import opened Alphabet
  import opened BitStream
  import opened Messages
  import opened PhoneNumbers
  import opened Septets
  import opened Sequences
  import opened Text
  import Hex

  const VALIDITY_PERIOD: nat := 1
  const MAX_MESSAGE_BYTES: nat := 140

  datatype Sms = Sms(number: string, message: string)
  datatype SmsError = SendingError | ReadingError

  // ---------- Address fields, section 9.1.2.5 of TS 23.040 ----------

  predicate IsSemiOctet(c: char) {
    '0' <= c <= '9' || c == 'F'
  }

  predicate IsSemiOctets(s: string) {
    |s| % 2 == 0 && forall i :: 0 <= i < |s| ==> IsSemiOctet(s[i])
  }

  function Nibble(c: char): nat
    requires IsSemiOctet(c)
  {
    if c == 'F' then 15 else (c - '0') as nat
  }

  function NibbleChar(n: nat): char
    requires n < 16
  {
    UpperChar(Hex.Digit(n))
  }

  /** Two digits an octet, the first in the low semi-octet. */
  function SemiOctets(s: string): (octets: seq<nat>)
    requires IsSemiOctets(s)
    ensures |octets| == |s| / 2
    ensures Fit(octets, 8)
  {
    if s == "" then [] else
      assert Power2(8) == 256;
      [Nibble(s[0]) + 16 * Nibble(s[1])] + SemiOctets(s[2..])
  }

  /** The semi-octets of an address value, low one first. */
  function ReadSemiOctets(octets: seq<nat>): (s: string)
    ensures |s| == 2 * |octets|
  {
    if octets == [] then ""
    else [NibbleChar(octets[0] % 16), NibbleChar(octets[0] / 16 % 16)] + ReadSemiOctets(octets[1..])
  }

  /** The sign that a semi-octet stands for, section 9.1.2.3; 15 is the end mark. */
  function DialledChar(c: char): (sign: Option<char>) {
    if '0' <= c <= '9' then Some(c)
    else match c
      case 'A' => Some('*')
      case 'B' => Some('#')
      case 'C' => Some('a')
      case 'D' => Some('b')
      case 'E' => Some('c')
      case _ => None
  }

  /** The number that some semi-octets stand for, if none of them is the end mark. */
  function Dialled(s: string): (number: Option<string>)
    ensures number.Some? ==> |number.value| == |s|
    ensures number.Some? ==> forall i :: 0 <= i < |s| ==> DialledChar(s[i]) == Some(number.value[i])
  {
    if s == "" then Some("")
    else match (DialledChar(s[0]), Dialled(s[1..]))
      case (Some(sign), Some(rest)) => Some([sign] + rest)
      case _ => None
  }

  lemma {:induction false} DialledDigits(s: string)
    requires IsDigits(s)
    ensures Dialled(s) == Some(s)
  {
    if s != "" {
      DialledDigits(s[1..]);
      HeadTail(s);
    }
  }

  lemma NibbleRoundTrip(c: char)
    requires IsSemiOctet(c)
    ensures Nibble(c) < 16 && NibbleChar(Nibble(c)) == c
  {
  }

  lemma OctetOfNibbles(low: nat, high: nat)
    requires low < 16 && high < 16
    ensures (low + 16 * high) % 16 == low && (low + 16 * high) / 16 == high
    ensures high % 16 == high
  {
  }

  lemma ReadOctet(low: char, high: char, rest: seq<nat>)
    requires IsSemiOctet(low) && IsSemiOctet(high)
    ensures ReadSemiOctets([Nibble(low) + 16 * Nibble(high)] + rest) == [low, high] + ReadSemiOctets(rest)
  {
    NibbleRoundTrip(low);
    NibbleRoundTrip(high);
    OctetOfNibbles(Nibble(low), Nibble(high));
    assert ([Nibble(low) + 16 * Nibble(high)] + rest)[1..] == rest;
  }

  lemma SemiOctetPair(s: string)
    requires IsSemiOctets(s) && s != ""
    ensures IsSemiOctet(s[0]) && IsSemiOctet(s[1]) && IsSemiOctets(s[2..])
    ensures SemiOctets(s) == [Nibble(s[0]) + 16 * Nibble(s[1])] + SemiOctets(s[2..])
  {
  }

  lemma {:induction false} ReadBackSemiOctets(s: string)
    requires IsSemiOctets(s)
    ensures ReadSemiOctets(SemiOctets(s)) == s
  {
    if s != "" {
      var rest := s[2..];
      SemiOctetPair(s);
      ReadOctet(s[0], s[1], SemiOctets(rest));
      ReadBackSemiOctets(rest);
      PairTail(s);
    }
  }

  lemma HexOfNibbles(low: char, high: char)
    requires IsSemiOctet(low) && IsSemiOctet(high)
    ensures Upper(Hex.Octet(Nibble(low) + 16 * Nibble(high))) == [high, low]
  {
    NibbleRoundTrip(low);
    NibbleRoundTrip(high);
    OctetOfNibbles(Nibble(low), Nibble(high));
  }

  lemma HexOfPair(low: char, high: char, rest: seq<nat>)
    requires IsSemiOctet(low) && IsSemiOctet(high)
    ensures Upper(Hex.Encode([Nibble(low) + 16 * Nibble(high)] + rest)) == [high, low] + Upper(Hex.Encode(rest))
  {
    HexOfNibbles(low, high);
    Hex.CasedEncode(Nibble(low) + 16 * Nibble(high), rest);
  }

  /** Swapping the digits of every pair writes the hexadecimal of the semi-octets. */
  lemma {:induction false} SwappedDigitsAreHex(s: string)
    requires IsSemiOctets(s)
    ensures Upper(Hex.Encode(SemiOctets(s))) == SwapPairs(s)
  {
    if s != "" {
      var rest := s[2..];
      SemiOctetPair(s);
      HexOfPair(s[0], s[1], SemiOctets(rest));
      SwappedDigitsAreHex(rest);
      assert SwapPairs(s) == [s[1], s[0]] + SwapPairs(rest);
    }
  }

  /** Digits that encoding pairs up: any number of them up to twelve, beyond that an even number. */
  predicate IsNumber(digits: string) {
    IsDigits(digits) && (|digits| <= FIELD || |digits| % 2 == 0)
  }

  /** The octets that the digits take, six at least. */
  function NumberOctets(digits: string): nat {
    if |digits| < FIELD then FIELD / 2 else |digits| / 2
  }

  lemma PaddedDigits(digits: string)
    requires IsDigits(digits)
    ensures Padded("+" + digits) == digits + Repeat('F', if |digits| < FIELD then FIELD - |digits| else 0)
    ensures |Padded("+" + digits)| % 2 == 0 <==> IsNumber(digits)
    ensures IsNumber(digits) ==> IsSemiOctets(Padded("+" + digits))
                                 && |SemiOctets(Padded("+" + digits))| == NumberOctets(digits)
  {
    WithoutPlus(digits);
    var padded := digits + Repeat('F', if |digits| < FIELD then FIELD - |digits| else 0);
    assert forall i :: 0 <= i < |padded| ==> IsSemiOctet(padded[i]);
  }

  // ---------- Sending ----------

  /** The text written after the prompt: SMSC, header, address, PID, DCS, VP, UDL, body, Ctrl-Z. */
  function SubmitPdu(encodedNumber: string, length: nat, encodedMessage: string): (pdu: string) {
    "0011000B91" + encodedNumber + "0000" + Upper(Hex.Octet(VALIDITY_PERIOD)) + Upper(Hex.Octet(length % 256))
    + encodedMessage + "\U{1A}"
  }

  function CmgsLength(pdu: string): nat
    requires Bytes(pdu) >= 2
  {
    (Bytes(pdu) - 2) / 2
  }

  /** What `send_sms` makes of a message before it talks to the modem. */
  function ComposeSubmit(sms: Sms, fill: Fill): (r: Outcome<string, SmsError>) {
    if Bytes(sms.message) > MAX_MESSAGE_BYTES then Failed(SendingError)
    else match EncodePhone(sms.number)
      case Panicked => Panicked
      case Failed(_) => Failed(SendingError)
      case Done(number) =>
        match EncodeMessage(sms.message, fill)
        case Err(_) => Failed(SendingError)
        case Ok(body) => Done(SubmitPdu(number, Bytes(sms.message), body))
  }

  /** Exactly when a message is composed, refused or panics. */
  lemma ComposingIsExact(sms: Sms, fill: Fill)
    ensures var count := |Without(sms.number, '+')|;
            var encodes := count <= 12 || count % 2 == 0;
            && (ComposeSubmit(sms, fill).Panicked? <==> Bytes(sms.message) <= 140 && !encodes)
            && (ComposeSubmit(sms, fill).Done? <==>
                  Bytes(sms.message) <= 140 && encodes && EncodeText(sms.message).Some?)
  {
    EncodingPanics(sms.number);
  }

  lemma {:induction false} BytesAtLeast(s: string)
    ensures Bytes(s) >= |s|
  {
    if s != "" {
      BytesAtLeast(s[1..]);
    }
  }

  lemma ComposedLength(sms: Sms, fill: Fill)
    requires ComposeSubmit(sms, fill).Done?
    ensures Bytes(ComposeSubmit(sms, fill).value) >= 2
  {
    BytesAtLeast(ComposeSubmit(sms, fill).value);
  }

  /** SMS-SUBMIT as the standard lays it out, for a relative validity period and the GSM alphabet. */
  datatype Submit = Submit(typeOfNumber: nat, destination: string, protocol: nat, coding: nat,
                           validity: nat, septets: seq<nat>)

  function ParseSubmit(octets: seq<nat>): (r: Option<Submit>) {
    if octets == [] || |octets| < 1 + octets[0] then None else ParseTpdu(octets[1 + octets[0]..])
  }

  function ParseTpdu(tpdu: seq<nat>): (r: Option<Submit>) {
    var isSubmit := |tpdu| >= 4 && tpdu[0] % 4 == 1;
    var relativeValidity := isSubmit && tpdu[0] / 8 % 4 == 2;
    if !relativeValidity || |tpdu| < 4 + (tpdu[2] + 1) / 2 + 4 then None
    else
      var width := (tpdu[2] + 1) / 2;
      ParseParameters(tpdu[3], ReadSemiOctets(tpdu[4..4 + width])[..tpdu[2]], tpdu[4 + width..])
  }

  function ParseParameters(typeOfNumber: nat, digits: string, rest: seq<nat>): (r: Option<Submit>)
    requires |rest| >= 4
  {
    var count, body := rest[3], rest[4..];
    if Dialled(digits).None? || |body| != (7 * count + 7) / 8 || |Unpack(body)| < count then None
    else Some(Submit(typeOfNumber, Dialled(digits).value, rest[0], rest[1], rest[2], Unpack(body)[..count]))
  }

  /** The reading of a whole text, hexadecimal up to its Ctrl-Z. */
  function ReadSubmit(text: string): (r: Option<Submit>) {
    if text == "" || text[|text| - 1] != '\U{1A}' then None
    else match Hex.Decode(text[..|text| - 1])
      case None => None
      case Some(octets) => ParseSubmit(octets)
  }

  function SubmitTpdu(digits: string, length: nat, body: seq<nat>): seq<nat>
    requires IsNumber(digits)
  {
    PaddedDigits(digits);
    [0x11, 0x00, 0x0B, 0x91]
    + (SemiOctets(Padded("+" + digits)) + ([0x00, 0x00, VALIDITY_PERIOD, length % 256] + body))
  }

  /** A zero SMSC length, for the centre stored in the modem, and the TPDU. */
  function SubmitOctets(digits: string, length: nat, body: seq<nat>): seq<nat>
    requires IsNumber(digits)
  {
    [0x00] + SubmitTpdu(digits, length, body)
  }

  lemma EncodeAppend(a: seq<nat>, b: seq<nat>)
    ensures Upper(Hex.Encode(a + b)) == Upper(Hex.Encode(a)) + Upper(Hex.Encode(b))
  {
    PlainAppend(a, b);
    UpperAppend(Hex.Encode(a), Hex.Encode(b));
  }

  lemma {:induction false} PlainAppend(a: seq<nat>, b: seq<nat>)
    ensures Hex.Encode(a + b) == Hex.Encode(a) + Hex.Encode(b)
  {
    Empty(b);
    if a != [] {
      AppendStep(a, b);
      PlainAppend(a[1..], b);
      Associative(Hex.Octet(a[0]), Hex.Encode(a[1..]), Hex.Encode(b));
    }
  }

  lemma HexOne(value: nat)
    ensures Upper(Hex.Encode([value])) == Upper(Hex.Octet(value))
  {
    Hex.CasedEncode(value, []);
    assert [value] + [] == [value];
    assert Upper(Hex.Octet(value)) + "" == Upper(Hex.Octet(value));
  }

  lemma HexTwo(a: nat, b: nat)
    ensures Upper(Hex.Encode([a, b])) == Upper(Hex.Octet(a)) + Upper(Hex.Octet(b))
  {
    HexOne(b);
    Hex.CasedEncode(a, [b]);
    assert [a] + [b] == [a, b];
  }

  lemma HexLiterals()
    ensures Upper(Hex.Octet(0x00)) == "00" && Upper(Hex.Octet(0x11)) == "11"
    ensures Upper(Hex.Octet(0x0B)) == "0B" && Upper(Hex.Octet(0x91)) == "91"
  {
  }

  lemma HexHeader()
    ensures Upper(Hex.Encode([0x00])) == "00"
    ensures Upper(Hex.Encode([0x11, 0x00, 0x0B, 0x91])) == "11000B91"
  {
    HexLiterals();
    HexOne(0x00);
    HexTwo(0x11, 0x00);
    HexTwo(0x0B, 0x91);
    EncodeAppend([0x11, 0x00], [0x0B, 0x91]);
    assert [0x11, 0x00] + [0x0B, 0x91] == [0x11, 0x00, 0x0B, 0x91];
    assert "11" + "00" + ("0B" + "91") == "11000B91";
  }

  lemma HexParameters(length: nat)
    ensures Upper(Hex.Encode([0x00, 0x00, VALIDITY_PERIOD, length % 256]))
         == "0000" + Upper(Hex.Octet(VALIDITY_PERIOD)) + Upper(Hex.Octet(length % 256))
  {
    HexTwo(0x00, 0x00);
    HexTwo(VALIDITY_PERIOD, length % 256);
    assert Upper(Hex.Octet(0x00)) == "00";
    EncodeAppend([0x00, 0x00], [VALIDITY_PERIOD, length % 256]);
    assert [0x00, 0x00] + [VALIDITY_PERIOD, length % 256] == [0x00, 0x00, VALIDITY_PERIOD, length % 256];
    assert "00" + "00" == "0000";
  }

  lemma NumberIsHex(digits: string)
    requires IsNumber(digits)
    ensures IsSemiOctets(Padded("+" + digits))
    ensures EncodePhone("+" + digits) == Done(Upper(Hex.Encode(SemiOctets(Padded("+" + digits)))))
  {
    PaddedDigits(digits);
    SwappedDigitsAreHex(Padded("+" + digits));
  }

  lemma Regroup(number: string, p: string, v: string, l: string, body: string, end: string)
    ensures "0011000B91" + number + p + v + l + body + end
         == "00" + ("11000B91" + (number + ((p + v + l) + body))) + end
  {
    assert "00" + "11000B91" == "0011000B91";
  }

  lemma SubmitOctetsHex(digits: string, length: nat, body: seq<nat>)
    requires IsNumber(digits)
    ensures IsSemiOctets(Padded("+" + digits))
    ensures Upper(Hex.Encode(SubmitOctets(digits, length, body)))
         == Upper(Hex.Encode([0x00])) + (Upper(Hex.Encode([0x11, 0x00, 0x0B, 0x91]))
          + (Upper(Hex.Encode(SemiOctets(Padded("+" + digits))))
          + (Upper(Hex.Encode([0x00, 0x00, VALIDITY_PERIOD, length % 256])) + Upper(Hex.Encode(body)))))
  {
    PaddedDigits(digits);
    var head, number := [0x11, 0x00, 0x0B, 0x91], SemiOctets(Padded("+" + digits));
    var parameters := [0x00, 0x00, VALIDITY_PERIOD, length % 256];
    EncodeAppend(parameters, body);
    EncodeAppend(number, parameters + body);
    EncodeAppend(head, number + (parameters + body));
    EncodeAppend([0x00], head + (number + (parameters + body)));
  }

  /** The composed text is the hexadecimal of SMS-SUBMIT octets, and a final Ctrl-Z. */
  lemma SubmitPduIsHex(digits: string, length: nat, body: seq<nat>)
    requires IsNumber(digits)
    ensures EncodePhone("+" + digits).Done?
    ensures SubmitPdu(EncodePhone("+" + digits).value, length, Upper(Hex.Encode(body)))
         == Upper(Hex.Encode(SubmitOctets(digits, length, body))) + "\U{1A}"
  {
    NumberIsHex(digits);
    HexHeader();
    HexParameters(length);
    SubmitOctetsHex(digits, length, body);
    Regroup(EncodePhone("+" + digits).value, "0000", Upper(Hex.Octet(VALIDITY_PERIOD)),
            Upper(Hex.Octet(length % 256)), Upper(Hex.Encode(body)), "\U{1A}");
  }

  // ---------- How the standard reads what is sent ----------

  lemma ReadSubmitNumber(digits: string)
    requires IsDigits(digits) && |digits| <= FIELD
    ensures IsSemiOctets(Padded("+" + digits))
    ensures Dialled(ReadSemiOctets(SemiOctets(Padded("+" + digits)))[..11]) == Some(digits) <==> |digits| == 11
  {
    PaddedDigits(digits);
    var padded := Padded("+" + digits);
    ReadBackSemiOctets(padded);
    assert |padded| == FIELD;
    if |digits| == 11 {
      assert padded[..11] == digits;
      DialledDigits(digits);
    }
  }

  lemma ParseTpduOf(tpdu: seq<nat>, number: seq<nat>, rest: seq<nat>)
    requires |tpdu| >= 14 && tpdu[0] == 0x11 && tpdu[2] == 11 && tpdu[3] == 0x91
    requires tpdu[4..10] == number && tpdu[10..] == rest
    ensures ParseTpdu(tpdu) == ParseParameters(0x91, ReadSemiOctets(number)[..11], rest)
  {
  }

  lemma TpduFields(number: seq<nat>, parameters: seq<nat>, body: seq<nat>)
    requires |number| == 6 && |parameters| == 4
    ensures var tpdu := [0x11, 0x00, 0x0B, 0x91] + (number + (parameters + body));
            ParseTpdu(tpdu) == ParseParameters(0x91, ReadSemiOctets(number)[..11], parameters + body)
  {
    var head := [0x11, 0x00, 0x0B, 0x91];
    Middle(head, number, parameters + body);
    ParseTpduOf(head + (number + (parameters + body)), number, parameters + body);
  }

  lemma ParameterFields(digits: string, length: nat, body: seq<nat>)
    ensures ParseParameters(0x91, digits, [0x00, 0x00, VALIDITY_PERIOD, length] + body) ==
            if Dialled(digits).None? || |body| != (7 * length + 7) / 8 || |Unpack(body)| < length then None
            else Some(Submit(0x91, Dialled(digits).value, 0, 0, VALIDITY_PERIOD, Unpack(body)[..length]))
  {
    assert ([0x00, 0x00, VALIDITY_PERIOD, length] + body)[4..] == body;
  }

  lemma ParseFields(number: seq<nat>, parameters: seq<nat>, body: seq<nat>)
    requires |number| == 6 && |parameters| == 4
    ensures ParseSubmit([0x00] + ([0x11, 0x00, 0x0B, 0x91] + (number + (parameters + body))))
         == ParseParameters(0x91, ReadSemiOctets(number)[..11], parameters + body)
  {
    var tpdu := [0x11, 0x00, 0x0B, 0x91] + (number + (parameters + body));
    TpduFields(number, parameters, body);
    assert ([0x00] + tpdu)[1..] == tpdu;
  }

  /** The reading of the octets that are sent for at most twelve digits, by their UDL and their body. */
  lemma ParseSubmitOctets(digits: string, length: nat, body: seq<nat>)
    requires IsDigits(digits) && |digits| <= FIELD
    requires length < 256
    ensures IsSemiOctets(Padded("+" + digits)) && |SemiOctets(Padded("+" + digits))| == 6
    ensures ParseSubmit(SubmitOctets(digits, length, body)) ==
            ParseParameters(0x91, ReadSemiOctets(SemiOctets(Padded("+" + digits)))[..11],
                            [0x00, 0x00, VALIDITY_PERIOD, length] + body)
  {
    PaddedDigits(digits);
    assert length % 256 == length;
    ParseFields(SemiOctets(Padded("+" + digits)), [0x00, 0x00, VALIDITY_PERIOD, length], body);
  }

  /** The length octet 0x0B stands for eleven digits, however many follow. */
  lemma DestinationHasEleven(octets: seq<nat>)
    requires |octets| >= 5 && octets[0] == 0 && octets[3] == 0x0B
    ensures ParseSubmit(octets).Some? ==> |ParseSubmit(octets).value.destination| == 11
  {
    var tpdu := octets[1..];
    assert ParseSubmit(octets) == ParseTpdu(tpdu);
  }

  function SentOctets(digits: string, message: string, fill: Fill): seq<nat>
    requires IsNumber(digits) && EncodeText(message).Some?
  {
    SubmitOctets(digits, Bytes(message), Pack(EncodeText(message).value, fill))
  }

  lemma Composed(digits: string, message: string, fill: Fill)
    requires IsNumber(digits)
    requires EncodeText(message).Some? && Bytes(message) <= MAX_MESSAGE_BYTES
    ensures ComposeSubmit(Sms("+" + digits, message), fill)
         == Done(Upper(Hex.Encode(SentOctets(digits, message, fill))) + "\U{1A}")
  {
    SubmitPduIsHex(digits, Bytes(message), Pack(EncodeText(message).value, fill));
  }

  /**
    The text sent for every number of digits and every message that `send_sms` accepts, or the panic
    that an odd number of more than twelve digits is. The length announced by AT+CMGS is the octet
    count of the TPDU, which section 4.3 of 3GPP TS 27.005 takes without the SMSC octet.
   */
  lemma SubmitText(digits: string, message: string, fill: Fill)
    requires IsDigits(digits)
    requires EncodeText(message).Some? && Bytes(message) <= 140
    ensures ComposeSubmit(Sms("+" + digits, message), fill) ==
            if IsNumber(digits) then Done(Upper(Hex.Encode(SentOctets(digits, message, fill))) + "\U{1A}") else Panicked
    ensures IsNumber(digits) ==>
              && Fit(SentOctets(digits, message, fill), 8)
              && Bytes(ComposeSubmit(Sms("+" + digits, message), fill).value) >= 2
              && CmgsLength(ComposeSubmit(Sms("+" + digits, message), fill).value)
                 == |SentOctets(digits, message, fill)| - 1
                 == 8 + NumberOctets(digits) + (7 * |EncodeText(message).value| + 7) / 8
  {
    PaddedDigits(digits);
    if IsNumber(digits) {
      Composed(digits, message, fill);
      EncodeTextFits(message);
      PackedStream(EncodeText(message).value, fill);
      SubmitOctetsFit(digits, Bytes(message), Pack(EncodeText(message).value, fill));
      TextBytes(SentOctets(digits, message, fill));
    }
  }

  // ---------- Numbers of any characters ----------

  /** What a hexadecimal digit shows as in a semi-octet. */
  function ShownChar(c: char): char {
    if Hex.DigitValue(c).Some? then NibbleChar(Hex.DigitValue(c).value) else '?'
  }

  function Shown(s: string): (shown: string)
    ensures |shown| == |s|
  {
    seq(|s|, i requires 0 <= i < |s| => ShownChar(s[i]))
  }

  lemma OnlyDigitsAreThemselves(c: char)
    requires DialledChar(ShownChar(c)) == Some(c)
    ensures '0' <= c <= '9'
  {
  }

  /** The octets of two characters. */
  lemma PairIsShown(high: char, low: char, rest: seq<nat>)
    requires Hex.DigitValue(high).Some? && Hex.DigitValue(low).Some?
    ensures var value := 16 * Hex.DigitValue(high).value + Hex.DigitValue(low).value;
            ReadSemiOctets([value] + rest)
            == [NibbleChar(Hex.DigitValue(low).value), NibbleChar(Hex.DigitValue(high).value)] + ReadSemiOctets(rest)
  {
    var value := 16 * Hex.DigitValue(high).value + Hex.DigitValue(low).value;
    OctetOfNibbles(Hex.DigitValue(low).value, Hex.DigitValue(high).value);
    assert ([value] + rest)[1..] == rest;
  }

  lemma ShownPair(s: string)
    requires |s| >= 2
    ensures Shown(s) == [ShownChar(s[0]), ShownChar(s[1])] + Shown(s[2..])
  {
  }

  /** What is read of a number field, if it is hexadecimal. */
  lemma {:induction false} NumberIsShown(s: string)
    requires |s| % 2 == 0 && Hex.Decode(SwapPairs(s)).Some?
    ensures |Hex.Decode(SwapPairs(s)).value| == |s| / 2
    ensures ReadSemiOctets(Hex.Decode(SwapPairs(s)).value) == Shown(s)
  {
    if s != "" {
      Hex.DecodedPair(s[1], s[0], SwapPairs(s[2..]));
      PairIsShown(s[1], s[0], Hex.Decode(SwapPairs(s[2..])).value);
      NumberIsShown(s[2..]);
      ShownPair(s);
    }
  }

  lemma PrefixOctets()
    ensures Hex.Decode("0011000B91") == Some([0x00, 0x11, 0x00, 0x0B, 0x91])
  {
    HexHeader();
    assert Power2(8) == 256;
    EncodeAppend([0x00], [0x11, 0x00, 0x0B, 0x91]);
    assert [0x00] + [0x11, 0x00, 0x0B, 0x91] == [0x00, 0x11, 0x00, 0x0B, 0x91];
    assert "00" + "11000B91" == "0011000B91";
    Hex.DecodeEncode([0x00, 0x11, 0x00, 0x0B, 0x91]);
  }

  /** The octets that a composed text stands for, if it is hexadecimal, by the number's and the rest. */
  lemma ComposedOctets(number: string, rest: string)
    requires |number| % 2 == 0 && Hex.Decode("0011000B91" + (number + rest)).Some?
    ensures Hex.Decode(number).Some? && Hex.Decode(rest).Some?
    ensures Hex.Decode("0011000B91" + (number + rest)).value
         == [0x00] + ([0x11, 0x00, 0x0B, 0x91] + (Hex.Decode(number).value + Hex.Decode(rest).value))
  {
    PrefixOctets();
    Hex.DecodeAppend("0011000B91", number + rest);
    Hex.DecodeAppend(number, rest);
    assert [0x00, 0x11, 0x00, 0x0B, 0x91] == [0x00] + [0x11, 0x00, 0x0B, 0x91];
    Associative([0x00], [0x11, 0x00, 0x0B, 0x91], Hex.Decode(number).value + Hex.Decode(rest).value);
  }

  /** The destination that is read stands for the first eleven characters. */
  lemma DestinationIsShown(number: seq<nat>, rest: seq<nat>)
    requires |number| == 6
    requires ParseSubmit([0x00] + ([0x11, 0x00, 0x0B, 0x91] + (number + rest))).Some?
    ensures Dialled(ReadSemiOctets(number)[..11])
         == Some(ParseSubmit([0x00] + ([0x11, 0x00, 0x0B, 0x91] + (number + rest))).value.destination)
  {
    var head := [0x11, 0x00, 0x0B, 0x91];
    var tpdu := head + (number + rest);
    Middle(head, number, rest);
    assert ([0x00] + tpdu)[1..] == tpdu;
    ParseTpduOf(tpdu, number, rest);
  }

  /** Eleven characters that the reader takes for themselves are digits. */
  lemma UnderstoodAreDigits(digits: string)
    requires |digits| == 11 && Dialled(Shown(digits + "F")[..11]) == Some(digits)
    ensures IsDigits(digits)
  {
    var shown := Shown(digits + "F")[..11];
    forall i | 0 <= i < 11 ensures '0' <= digits[i] <= '9' {
      assert shown[i] == ShownChar(digits[i]);
      OnlyDigitsAreThemselves(digits[i]);
    }
  }

  lemma SubmitPduParts(number: string, length: nat, body: string)
    ensures var rest := "0000" + Upper(Hex.Octet(VALIDITY_PERIOD)) + Upper(Hex.Octet(length % 256)) + body;
            SubmitPdu(number, length, body) == "0011000B91" + (number + rest) + "\U{1A}"
  {
  }

  lemma EndsInCtrlZ(hex: string)
    ensures ReadSubmit(hex + "\U{1A}")
         == match Hex.Decode(hex) case None => None case Some(octets) => ParseSubmit(octets)
  {
    assert (hex + "\U{1A}")[..|hex|] == hex;
  }

  /** What is read of octets with some number field as the destination. */
  lemma DestinationOfOctets(number: seq<nat>, rest: seq<nat>)
    requires ParseSubmit([0x00] + ([0x11, 0x00, 0x0B, 0x91] + (number + rest))).Some?
    ensures var destination := ParseSubmit([0x00] + ([0x11, 0x00, 0x0B, 0x91] + (number + rest))).value.destination;
            |destination| == 11 && (|number| == 6 ==> Dialled(ReadSemiOctets(number)[..11]) == Some(destination))
  {
    var head := [0x00] + ([0x11, 0x00, 0x0B, 0x91] + (number + rest));
    assert head[3] == 0x0B;
    DestinationHasEleven(head);
    if |number| == 6 {
      DestinationIsShown(number, rest);
    }
  }

  lemma DestinationOfText(number: string, rest: string)
    requires |number| % 2 == 0 && ReadSubmit("0011000B91" + (number + rest) + "\U{1A}").Some?
    ensures Hex.Decode(number).Some?
    ensures var destination := ReadSubmit("0011000B91" + (number + rest) + "\U{1A}").value.destination;
            |destination| == 11
            && (|Hex.Decode(number).value| == 6
                ==> Dialled(ReadSemiOctets(Hex.Decode(number).value)[..11]) == Some(destination))
  {
    EndsInCtrlZ("0011000B91" + (number + rest));
    ComposedOctets(number, rest);
    DestinationOfOctets(Hex.Decode(number).value, Hex.Decode(rest).value);
  }

  lemma PaddedEleven(phone: string)
    requires |Without(phone, '+')| == 11
    ensures EncodePhone(phone) == Done(SwapPairs(Without(phone, '+') + "F"))
  {
    assert Repeat('F', 1) == "F";
  }

  /** Whatever a phone number consists of, only eleven digits are read as they were meant. */
  lemma OnlyElevenDigits(phone: string, length: nat, body: string)
    requires EncodePhone(phone).Done?
    requires var text := SubmitPdu(EncodePhone(phone).value, length, body);
             ReadSubmit(text).Some? && ReadSubmit(text).value.destination == Without(phone, '+')
    ensures IsDigits(Without(phone, '+')) && |Without(phone, '+')| == 11
  {
    var digits, number := Without(phone, '+'), EncodePhone(phone).value;
    var rest := "0000" + Upper(Hex.Octet(VALIDITY_PERIOD)) + Upper(Hex.Octet(length % 256)) + body;
    SubmitPduParts(number, length, body);
    DestinationOfText(number, rest);
    PaddedEleven(phone);
    NumberIsShown(digits + "F");
    UnderstoodAreDigits(digits);
  }

  lemma PlusIsIgnored(phone: string)
    ensures EncodePhone(phone) == EncodePhone("+" + Without(phone, '+'))
  {
    WithoutPlus(Without(phone, '+'));
  }

  /**
    What a message service centre reads of every message that is composed, to whatever number: the
    number and the septets that were meant exactly when the number has the eleven digits that the
    fixed length octet announces, and nothing but digits and plus signs, and the message as many UTF-8
    bytes, which are written as the TP-User-Data-Length, as septets, which that field counts.
   */
  lemma SubmitIsUnderstood(phone: string, message: string, fill: Fill)
    requires ComposeSubmit(Sms(phone, message), fill).Done?
    ensures EncodeText(message).Some?
    ensures var digits, septets := Without(phone, '+'), EncodeText(message).value;
            (ReadSubmit(ComposeSubmit(Sms(phone, message), fill).value)
             == Some(Submit(0x91, digits, 0, 0, 1, septets)))
            <==> (IsDigits(digits) && |digits| == 11 && Bytes(message) == |septets|)
  {
    var digits := Without(phone, '+');
    var body := Upper(Hex.Encode(Pack(EncodeText(message).value, fill)));
    if IsDigits(digits) && |digits| == 11 {
      PlusIsIgnored(phone);
      SubmitText(digits, message, fill);
      EndsInCtrlZ(Upper(Hex.Encode(SentOctets(digits, message, fill))));
      Hex.DecodeEncode(SentOctets(digits, message, fill));
      ShortNumberIsUnderstood(digits, message, fill);
    } else if ReadSubmit(ComposeSubmit(Sms(phone, message), fill).value)
              == Some(Submit(0x91, digits, 0, 0, 1, EncodeText(message).value)) {
      OnlyElevenDigits(phone, Bytes(message), body);
    }
  }

  lemma ShortNumberIsUnderstood(digits: string, message: string, fill: Fill)
    requires IsDigits(digits) && |digits| <= FIELD
    requires EncodeText(message).Some? && Bytes(message) <= MAX_MESSAGE_BYTES
    ensures (ParseSubmit(SentOctets(digits, message, fill))
             == Some(Submit(0x91, digits, 0, 0, VALIDITY_PERIOD, EncodeText(message).value)))
            <==> (|digits| == 11 && Bytes(message) == |EncodeText(message).value|)
  {
    var septets, length := EncodeText(message).value, Bytes(message);
    var body := Pack(septets, fill);
    ParseSubmitOctets(digits, length, body);
    ParameterFields(ReadSemiOctets(SemiOctets(Padded("+" + digits)))[..11], length, body);
    ReadSubmitNumber(digits);
    EncodeTextFits(message);
    PackedStream(septets, fill);
    UnpackPack(septets, fill);
    assert length == |septets| ==> Unpack(body)[..length] == septets;
  }

  lemma SubmitOctetsFit(digits: string, length: nat, body: seq<nat>)
    requires IsNumber(digits) && Fit(body, 8)
    ensures Fit(SubmitOctets(digits, length, body), 8)
  {
    assert Power2(8) == 256;
  }

  lemma TextBytes(octets: seq<nat>)
    ensures Bytes(Upper(Hex.Encode(octets)) + "\U{1A}") == 2 * |octets| + 1
  {
    HexIsAscii(octets);
    AsciiBytes(Upper(Hex.Encode(octets)) + "\U{1A}");
  }

  lemma {:induction false} AsciiBytes(s: string)
    requires forall i :: 0 <= i < |s| ==> s[i] < '\U{80}'
    ensures Bytes(s) == |s|
  {
    if s != "" {
      AsciiBytes(s[1..]);
    }
  }

  lemma {:induction false} HexIsAscii(octets: seq<nat>)
    ensures forall i :: 0 <= i < |Upper(Hex.Encode(octets))| ==> Upper(Hex.Encode(octets))[i] < '\U{80}'
  {
    if octets != [] {
      HexIsAscii(octets[1..]);
      Hex.CasedEncode(octets[0], octets[1..]);
      assert octets == [octets[0]] + octets[1..];
      assert forall i :: 0 <= i < 2 ==> Upper(Hex.Octet(octets[0]))[i] < '\U{80}';
    }
  }
}
