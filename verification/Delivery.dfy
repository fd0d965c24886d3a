/**
  Receiving: the SMS-DELIVER layout of section 9.2.2.1 of 3GPP TS 23.040, written independently, and
  the slices that `wait_sms` takes of it.
 */
module Delivery {
  import opened Wrappers
  import opened Alphabet
  import opened BitStream
  import opened Messages
  import opened Pdu
  import opened PhoneNumbers
  import opened Septets
  import opened Sequences
  import opened Text
  import Hex

  // ---------- The fixed slices ----------

  datatype Parts = Parts(front: string, rest: string)

  /** A text cut behind its first `n` bytes; None where that is not between two characters. */
  function SplitBytes(s: string, n: nat): (parts: Option<Parts>)
    ensures parts.Some? ==> s == parts.value.front + parts.value.rest && Bytes(parts.value.front) == n
  {
    if n == 0 then Some(Parts("", s))
    else if s == "" || n < CharBytes(s[0]) then None
    else match SplitBytes(s[1..], n - CharBytes(s[0]))
      case None => None
      case Some(later) =>
        HeadTail(s);
        AppendStep([s[0]] + later.front, later.rest);
        Some(Parts([s[0]] + later.front, later.rest))
  }

  lemma {:induction false} SplitAt(front: string, rest: string)
    ensures SplitBytes(front + rest, Bytes(front)) == Some(Parts(front, rest))
  {
    if front == "" {
      Empty(rest);
    } else {
      AppendStep(front, rest);
      SplitAt(front[1..], rest);
      HeadTail(front);
    }
  }

  datatype Slices = Slices(number: string, size: string, body: string)

  /** Bytes 22 to 34, 52 to 54, and from 54 on. */
  function SlicesOf(pdu: string): (r: Option<Slices>) {
    match SplitBytes(pdu, 22)
    case None => None
    case Some(front) =>
      match SplitBytes(front.rest, 12)
      case None => None
      case Some(number) =>
        match SplitBytes(number.rest, 18)
        case None => None
        case Some(middle) =>
          match SplitBytes(middle.rest, 2)
          case None => None
          case Some(size) => Some(Slices(number.front, size.front, size.rest))
  }

  /** A received PDU by its slices; a text they do not fit, or a size that is not hexadecimal, panics. */
  function ReadPdu(pdu: string): (r: Outcome<Sms, SmsError>) {
    match SlicesOf(pdu)
    case None => Panicked
    case Some(slices) =>
      if |slices.size| != 2 then Panicked
      else match (Hex.DecodeOne(slices.size), DecodePhone(slices.number))
        case (Some(size), Done(number)) => ReadBody(number, size, slices.body)
        case _ => Panicked
  }

  function ReadBody(number: string, size: nat, body: string): (r: Outcome<Sms, SmsError>) {
    match DecodeMessage(body, size)
    case Done(message) => Done(Sms(number, message))
    case Failed(_) => Failed(ReadingError)
    case Panicked => Panicked
  }

  /** The slices fit, the number pairs up, and the size is hexadecimal. */
  predicate IsReadable(pdu: string) {
    var slices := SlicesOf(pdu);
    slices.Some? && |slices.value.number| % 2 == 0
    && |slices.value.size| == 2 && Hex.DecodeOne(slices.value.size).Some?
  }

  /** The sender that is read of a PDU. */
  function SenderIn(pdu: string): (sender: Option<string>) {
    if IsReadable(pdu) then Some("+" + Without(SwapPairs(SlicesOf(pdu).value.number), 'F')) else None
  }

  /** A PDU that is not readable, or whose body has a character that straddles the byte taken for its end. */
  ghost predicate PduPanics(pdu: string) {
    !IsReadable(pdu)
    || var slices := SlicesOf(pdu).value;
       var data := Hex.Decode(Lower(slices.body));
       data.Some? && DataCut(data.value, Hex.DecodeOne(slices.size).value)
  }

  /** Of every text whatsoever: whether reading it panics, and whose message it is taken for. */
  lemma ReadingPanics(pdu: string)
    ensures ReadPdu(pdu) == Panicked <==> PduPanics(pdu)
    ensures ReadPdu(pdu).Done? ==> SenderIn(pdu) == Some(ReadPdu(pdu).value.number)
  {
    if IsReadable(pdu) {
      var slices := SlicesOf(pdu).value;
      AnyDecodingPanics(slices.body, Hex.DecodeOne(slices.size).value);
    }
  }

  /**
    Of every text whatsoever: when reading it fails, and what its message is otherwise, namely the
    text of its septets up to the byte that is taken for its end.
   */
  lemma ReadingIsExact(pdu: string)
    ensures ReadPdu(pdu).Failed? <==>
              IsReadable(pdu) && (var data := Hex.Decode(Lower(SlicesOf(pdu).value.body));
                                  data.None? || DecodeSeptets(Unpack(data.value)).None?)
    ensures ReadPdu(pdu).Failed? ==> ReadPdu(pdu) == Failed(ReadingError)
    ensures ReadPdu(pdu).Done? ==>
              && IsReadable(pdu) && Hex.Decode(Lower(SlicesOf(pdu).value.body)).Some?
              && IsTextOf(ReadPdu(pdu).value.message, Hex.Decode(Lower(SlicesOf(pdu).value.body)).value,
                          Hex.DecodeOne(SlicesOf(pdu).value.size).value)
  {
    if IsReadable(pdu) {
      var slices := SlicesOf(pdu).value;
      AnyDecodingPanics(slices.body, Hex.DecodeOne(slices.size).value);
      var data := Hex.Decode(Lower(slices.body));
      if data.Some? && DecodeSeptets(Unpack(data.value)).Some? && ReadPdu(pdu).Done? {
        TruncateIsPrefix(DecodeSeptets(Unpack(data.value)).value, Hex.DecodeOne(slices.size).value);
      }
    }
  }

  /** The text of some data, or as much of it as fills some bytes. */
  predicate IsTextOf(message: string, data: seq<nat>, size: nat) {
    var text := DecodeSeptets(Unpack(data));
    text.Some? && message <= text.value && Bytes(message) <= size && (message == text.value || Bytes(message) == size)
  }

  // ---------- The layout ----------

  /**
    The fields of an SMS-DELIVER before its user data, behind the address of its SMSC. The sender's
    address is the count of its semi-octets, its type, and its value in octets.
   */
  datatype Envelope = Envelope(centre: seq<nat>, header: nat, semiOctets: nat, addressType: nat, address: seq<nat>,
                               protocol: nat, coding: nat, timestamp: seq<nat>)

  /** A seven-octet SMSC address, and six octets of a sender's address of whatever type. */
  predicate IsEnvelope(v: Envelope) {
    |v.centre| == 7 && |v.timestamp| == 7 && |v.address| == 6 && 11 <= v.semiOctets <= FIELD
  }

  /** Whom an address stands for, sections 9.1.2.3 and 9.1.2.5 of TS 23.040. */
  datatype Party = Phone(number: string) | Name(text: Option<string>) | NoParty

  const INTERNATIONAL: nat := 1
  const ALPHANUMERIC: nat := 5

  function TypeOfNumber(v: Envelope): nat {
    v.addressType / 16 % 8
  }

  function SentBy(v: Envelope): Party
    requires IsEnvelope(v)
  {
    var number := Dialled(ReadSemiOctets(v.address)[..v.semiOctets]);
    if TypeOfNumber(v) == ALPHANUMERIC then Name(DecodeSeptets(Unpack(v.address)))
    else if number.None? then NoParty
    else Phone((if TypeOfNumber(v) == INTERNATIONAL then "+" else "") + number.value)
  }

  /** Whom the daemon takes for the sender. */
  function ReadNumber(v: Envelope): string {
    "+" + Without(ReadSemiOctets(v.address), 'F')
  }

  /** An international number of decimal digits, filled up as the standard wants it. */
  predicate IsPlainNumber(v: Envelope)
    requires IsEnvelope(v)
  {
    var value := ReadSemiOctets(v.address);
    TypeOfNumber(v) == INTERNATIONAL
    && IsDigits(value[..v.semiOctets]) && value[v.semiOctets..] == Repeat('F', FIELD - v.semiOctets)
  }

  /** TP-MTI says SMS-DELIVER, and TP-UDHI that no header begins the user data. */
  predicate IsPlainDeliver(header: nat) {
    header % 4 == 0 && header / 64 % 2 == 0
  }

  datatype Alphabets = DefaultAlphabet | EightBitData | Ucs2 | OtherCoding

  /** The alphabet that TP-DCS selects, section 4 of 3GPP TS 23.038. */
  function AlphabetOf(coding: nat): Alphabets {
    var groups := coding / 16 % 16;
    if groups < 8 then
      if coding / 32 % 2 == 1 then OtherCoding
      else
        match coding / 4 % 4
        case 0 => DefaultAlphabet
        case 1 => EightBitData
        case 2 => Ucs2
        case _ => OtherCoding
    else if groups == 12 || groups == 13 then DefaultAlphabet
    else if groups == 14 then Ucs2
    else if groups == 15 then if coding / 4 % 2 == 0 then DefaultAlphabet else EightBitData
    else OtherCoding
  }

  function Front(v: Envelope): seq<nat> {
    [0x07] + v.centre + [v.header, v.semiOctets, v.addressType]
  }

  function Middle(v: Envelope): seq<nat> {
    [v.protocol, v.coding] + v.timestamp
  }

  /** An envelope, the TP-User-Data-Length and the TP-User-Data. */
  function DeliverOctets(v: Envelope, length: nat, data: seq<nat>): seq<nat>
    requires IsEnvelope(v)
  {
    Front(v) + (v.address + (Middle(v) + ([length] + data)))
  }

  function DeliverText(v: Envelope, length: nat, data: seq<nat>): string
    requires IsEnvelope(v)
  {
    Upper(Hex.Encode(DeliverOctets(v, length, data)))
  }

  /** A message in septets, which TP-User-Data-Length counts. */
  datatype Deliver = Deliver(envelope: Envelope, message: string)

  predicate IsDeliver(d: Deliver) {
    && IsEnvelope(d.envelope) && IsPlainDeliver(d.envelope.header)
    && AlphabetOf(d.envelope.coding) == DefaultAlphabet
    && EncodeText(d.message).Some? && Count(d) < 256
  }

  function Count(d: Deliver): nat
    requires EncodeText(d.message).Some?
  {
    |EncodeText(d.message).value|
  }

  function MessageText(d: Deliver, fill: Fill): string
    requires IsDeliver(d)
  {
    DeliverText(d.envelope, Count(d), Pack(EncodeText(d.message).value, fill))
  }

  // ---------- What is read of it ----------

  lemma Sliced(front: string, number: string, middle: string, size: string, body: string)
    requires Bytes(front) == 22 && Bytes(number) == 12 && Bytes(middle) == 18 && Bytes(size) == 2
    ensures SlicesOf(front + (number + (middle + (size + body)))) == Some(Slices(number, size, body))
  {
    SplitAt(front, number + (middle + (size + body)));
    SplitAt(number, middle + (size + body));
    SplitAt(middle, size + body);
    SplitAt(size, body);
  }

  lemma HexOfParts(front: seq<nat>, number: seq<nat>, middle: seq<nat>, size: nat, body: seq<nat>)
    ensures Upper(Hex.Encode(front + (number + (middle + ([size] + body)))))
         == Upper(Hex.Encode(front)) + (Upper(Hex.Encode(number)) + (Upper(Hex.Encode(middle))
          + (Upper(Hex.Octet(size)) + Upper(Hex.Encode(body)))))
  {
    HexOne(size);
    EncodeAppend([size], body);
    EncodeAppend(middle, [size] + body);
    EncodeAppend(number, middle + ([size] + body));
    EncodeAppend(front, number + (middle + ([size] + body)));
  }

  lemma HexBytes(octets: seq<nat>)
    ensures Bytes(Upper(Hex.Encode(octets))) == 2 * |octets|
  {
    HexIsAscii(octets);
    AsciiBytes(Upper(Hex.Encode(octets)));
  }

  lemma EnvelopeBytes(v: Envelope)
    requires IsEnvelope(v)
    ensures Bytes(Upper(Hex.Encode(Front(v)))) == 22 && Bytes(Upper(Hex.Encode(Middle(v)))) == 18
    ensures Bytes(Upper(Hex.Encode(v.address))) == 12
  {
    HexBytes(Front(v));
    HexBytes(v.address);
    HexBytes(Middle(v));
  }

  lemma SizeBytes(length: nat)
    ensures Bytes(Upper(Hex.Octet(length))) == 2
  {
    HexOne(length);
    HexBytes([length]);
  }

  lemma DeliverSlices(v: Envelope, length: nat, data: seq<nat>)
    requires IsEnvelope(v)
    ensures SlicesOf(DeliverText(v, length, data))
         == Some(Slices(Upper(Hex.Encode(v.address)), Upper(Hex.Octet(length)), Upper(Hex.Encode(data))))
  {
    EnvelopeBytes(v);
    SizeBytes(length);
    HexOfParts(Front(v), v.address, Middle(v), length, data);
    Sliced(Upper(Hex.Encode(Front(v))), Upper(Hex.Encode(v.address)), Upper(Hex.Encode(Middle(v))),
           Upper(Hex.Octet(length)), Upper(Hex.Encode(data)));
  }

  lemma SwappedOctet(value: nat, rest: string)
    requires |rest| % 2 == 0
    ensures SwapPairs(Upper(Hex.Octet(value)) + rest)
         == [NibbleChar(value % 16), NibbleChar(value / 16 % 16)] + SwapPairs(rest)
  {
    assert (Upper(Hex.Octet(value)) + rest)[2..] == rest;
  }

  /** Swapping the pairs of hexadecimal text gives the semi-octets in their order. */
  lemma {:induction false} AddressIsSwapped(octets: seq<nat>)
    ensures SwapPairs(Upper(Hex.Encode(octets))) == ReadSemiOctets(octets)
  {
    if octets != [] {
      AddressIsSwapped(octets[1..]);
      HeadTail(octets);
      Hex.CasedEncode(octets[0], octets[1..]);
      SwappedOctet(octets[0], Upper(Hex.Encode(octets[1..])));
    }
  }

  lemma AddressIsRead(v: Envelope)
    requires IsEnvelope(v)
    ensures DecodePhone(Upper(Hex.Encode(v.address))) == Done(ReadNumber(v))
  {
    AddressIsSwapped(v.address);
  }

  /**
    Of every SMS-DELIVER in such an envelope, whatever its user data are, only the octets of the sender,
    the length and the user data are read, always as a plus sign and digits, and as septets: neither
    the header, nor the type of the address, nor the coding matter.
   */
  lemma CodingIsIgnored(v: Envelope, length: nat, data: seq<nat>)
    requires IsEnvelope(v) && length < 256
    ensures ReadPdu(DeliverText(v, length, data)) == ReadBody(ReadNumber(v), length, Upper(Hex.Encode(data)))
    ensures SenderIn(DeliverText(v, length, data)) == Some(ReadNumber(v))
  {
    DeliverSlices(v, length, data);
    Hex.DecodeOneOctet(length);
    AddressIsRead(v);
  }

  lemma {:induction false} OnlyFill(s: string)
    requires Without(s, 'F') == ""
    ensures s == Repeat('F', |s|)
  {
    if s != "" {
      OnlyFill(s[1..]);
      HeadTail(s);
      assert Repeat('F', |s|)[1..] == Repeat('F', |s| - 1);
    }
  }

  /** What is read of an address, by the semi-octets that count and the others. */
  lemma NumberInParts(v: Envelope)
    requires IsEnvelope(v)
    ensures var value := ReadSemiOctets(v.address);
            ReadNumber(v) == "+" + (Without(value[..v.semiOctets], 'F') + Without(value[v.semiOctets..], 'F'))
  {
    var value := ReadSemiOctets(v.address);
    assert value == value[..v.semiOctets] + value[v.semiOctets..];
    WithoutAppend(value[..v.semiOctets], value[v.semiOctets..], 'F');
  }

  lemma PlainIsRead(v: Envelope)
    requires IsEnvelope(v) && IsPlainNumber(v)
    ensures SentBy(v) == Phone(ReadNumber(v))
  {
    var value := ReadSemiOctets(v.address);
    NumberInParts(v);
    DialledDigits(value[..v.semiOctets]);
    WithoutAbsent(value[..v.semiOctets], 'F');
    WithoutRepeat('F', FIELD - v.semiOctets);
    Empty(value[..v.semiOctets]);
  }

  lemma DialledSigns(s: string)
    requires s != "" && Dialled(s).Some?
    ensures 'F' !in s && Dialled(s).value[0] != '+'
  {
    forall i | 0 <= i < |s| ensures s[i] != 'F' {
      DialledAt(s, i);
    }
    DialledAt(s, 0);
  }

  lemma SignIsDigit(c: char)
    requires DialledChar(c) == Some(c)
    ensures '0' <= c <= '9'
  {
  }

  lemma DialledAt(s: string, i: nat)
    requires Dialled(s).Some? && i < |s|
    ensures DialledChar(s[i]) == Some(Dialled(s).value[i])
  {
  }

  lemma DialledAsItself(s: string)
    requires Dialled(s) == Some(s)
    ensures IsDigits(s)
  {
    forall i | 0 <= i < |s| ensures '0' <= s[i] <= '9' {
      DialledAt(s, i);
      SignIsDigit(s[i]);
    }
  }

  lemma SameFront(number: string, counted: string, more: string)
    requires number == counted + more && |number| == |counted|
    ensures number == counted && more == ""
  {
  }

  lemma ReadIsPlain(v: Envelope)
    requires IsEnvelope(v) && SentBy(v) == Phone(ReadNumber(v))
    ensures IsPlainNumber(v)
  {
    var value := ReadSemiOctets(v.address);
    var counted, others := value[..v.semiOctets], value[v.semiOctets..];
    var number := Dialled(counted).value;
    NumberInParts(v);
    DialledSigns(counted);
    WithoutAbsent(counted, 'F');
    Empty(number);
    assert TypeOfNumber(v) == INTERNATIONAL;
    PlusMatches(number, counted + Without(others, 'F'));
    SameFront(number, counted, Without(others, 'F'));
    OnlyFill(others);
    DialledAsItself(counted);
  }

  lemma PlusMatches(a: string, b: string)
    ensures "+" + a == "+" + b <==> a == b
  {
    assert ("+" + a)[1..] == a && ("+" + b)[1..] == b;
  }

  /** The sender that is read is the one that sent exactly for international numbers of decimal digits. */
  lemma SenderIsRead(v: Envelope)
    requires IsEnvelope(v)
    ensures SentBy(v) == Phone(ReadNumber(v)) <==> IsPlainNumber(v)
  {
    if IsPlainNumber(v) {
      PlainIsRead(v);
    }
    if SentBy(v) == Phone(ReadNumber(v)) {
      ReadIsPlain(v);
    }
  }

  /** The address of an international number. */
  function InternationalAddress(digits: string): (address: seq<nat>)
    requires IsDigits(digits) && |digits| <= FIELD
    ensures |address| == 6
  {
    PaddedDigits(digits);
    SemiOctets(Padded("+" + digits))
  }

  /** Every international number of eleven or twelve digits is read. */
  lemma NumbersAreRead(v: Envelope, digits: string)
    requires IsEnvelope(v) && v.semiOctets == |digits| && v.addressType == 0x91
    requires IsDigits(digits) && |digits| <= FIELD && v.address == InternationalAddress(digits)
    ensures IsPlainNumber(v) && ReadNumber(v) == "+" + digits
  {
    PaddedDigits(digits);
    ReadBackSemiOctets(Padded("+" + digits));
    var value := ReadSemiOctets(v.address);
    assert value[..|digits|] == digits && value[|digits|..] == Repeat('F', FIELD - |digits|);
    WithoutPadding(digits, FIELD - |digits|);
  }

  /**
    Every delivery of septets is received as sent, with its sender's number, exactly when its message
    survives decoding and its sender has an international number of decimal digits.
   */
  lemma DeliverIsReceived(d: Deliver, fill: Fill)
    requires IsDeliver(d)
    ensures var r := ReadPdu(MessageText(d, fill));
            r.Done? && Phone(r.value.number) == SentBy(d.envelope) && r.value.message == d.message
            <==> Survives(d.message) && IsPlainNumber(d.envelope)
    ensures ReadPdu(MessageText(d, fill)) == Done(Sms(ReadNumber(d.envelope), d.message)) <==> Survives(d.message)
  {
    CodingIsIgnored(d.envelope, Count(d), Pack(EncodeText(d.message).value, fill));
    RoundTrip(d.message, fill);
    SenderIsRead(d.envelope);
  }

  /** Every delivery of whatever data panics exactly if the data, read as septets, are cut at their length. */
  lemma DeliveryPanics(v: Envelope, length: nat, data: seq<nat>)
    requires IsEnvelope(v) && length < 256 && Fit(data, 8)
    ensures PduPanics(DeliverText(v, length, data)) <==> DataCut(data, length)
    ensures ReadPdu(DeliverText(v, length, data)) == Panicked <==> DataCut(data, length)
  {
    CodingIsIgnored(v, length, data);
    Hex.DecodeEncode(data);
    AnyDecodingPanics(Upper(Hex.Encode(data)), length);
    ReadingPanics(DeliverText(v, length, data));
  }

  /** Some character of the decoded message straddles the byte that truncation takes for its end. */
  ghost predicate IsCut(d: Deliver, fill: Fill)
    requires IsDeliver(d)
  {
    Cut(d.message + ExtraText(Count(d), fill), Count(d))
  }

  /** Every delivery of septets either panics, exactly when it is cut, or gives some message of its sender. */
  lemma DeliverPanics(d: Deliver, fill: Fill)
    requires IsDeliver(d)
    ensures ReadPdu(MessageText(d, fill)) == Panicked <==> IsCut(d, fill)
    ensures DataCut(Pack(EncodeText(d.message).value, fill), Count(d)) <==> IsCut(d, fill)
    ensures !IsCut(d, fill) ==> ReadPdu(MessageText(d, fill)).Done?
                                && ReadPdu(MessageText(d, fill)).value.number == ReadNumber(d.envelope)
  {
    var septets := EncodeText(d.message).value;
    CodingIsIgnored(d.envelope, Count(d), Pack(septets, fill));
    DecodingPanics(d.message, Count(d), fill);
    EncodeTextFits(d.message);
    PackedStream(septets, fill);
    DeliveryPanics(d.envelope, Count(d), Pack(septets, fill));
  }
}
