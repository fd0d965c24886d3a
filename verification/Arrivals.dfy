/**
  Which messages can reach the daemon at all: one read of the modem has to hold the whole
  notification, and sender and text are what the slices can give.
 */
module Arrivals {
  import opened Wrappers
  import opened Alphabet
  import opened BitStream
  import opened Delivery
  import opened Indication
  import opened Messages
  import opened Modem
  import opened Pdu
  import opened PhoneNumbers
  import opened Septets
  import opened Sequences
  import opened Text
  import Hex

  /** The septets of the longest text that a notification within one read can carry. */
  const MAX_SEPTETS: nat := 36

  /** A plus sign and what a twelve-byte field can hold beside its fill; wide characters come in pairs. */
  predicate IsSender(phone: string) {
    && phone != "" && phone[0] == '+'
    && 'F' !in phone[1..] && '\n' !in phone[1..]
    && Bytes(phone[1..]) <= FIELD && (Bytes(phone[1..]) - |phone[1..]|) % 2 == 0
  }

  predicate Fits(text: string, septets: nat) {
    EncodeText(text).Some? && |EncodeText(text).value| <= septets
  }

  predicate Arrives(sender: string, text: string) {
    IsSender(sender) && Fits(text, MAX_SEPTETS)
  }

  /** The septets that are left for an argument behind the command `open` and a space. */
  const MAX_ARGUMENT: nat := MAX_SEPTETS - 5

  /** One read of the modem that the daemon takes for a message. */
  predicate IsArrival(response: string, sms: Sms) {
    && Bytes(response) <= RESPONSE_SIZE
    && Capture(response).Some? && ReadPdu(Capture(response).value) == Done(sms)
  }

  // ---------- Bytes ----------

  lemma {:induction false} BytesAppend(a: string, b: string)
    ensures Bytes(a + b) == Bytes(a) + Bytes(b)
  {
    Empty(b);
    if a != "" {
      AppendStep(a, b);
      BytesAppend(a[1..], b);
    }
  }

  lemma {:induction false} BytesOfSwapped(s: string)
    requires |s| % 2 == 0
    ensures Bytes(SwapPairs(s)) == Bytes(s)
    ensures forall c :: c in SwapPairs(s) ==> c in s
  {
    if s != "" {
      var swapped := [s[1], s[0]] + SwapPairs(s[2..]);
      BytesOfSwapped(s[2..]);
      assert swapped[1..] == [s[0]] + SwapPairs(s[2..]) && swapped[1..][1..] == SwapPairs(s[2..]);
      assert s[1..][1..] == s[2..];
    }
  }

  /** Dropping an ASCII character drops one byte each time. */
  lemma {:induction false} BytesWithout(s: string, c: char)
    requires c < '\U{80}'
    ensures |Without(s, c)| <= |s|
    ensures Bytes(s) == Bytes(Without(s, c)) + |s| - |Without(s, c)|
  {
    if s != "" {
      BytesWithout(s[1..], c);
      Empty(Without(s[1..], c));
      if s[0] != c {
        assert ([s[0]] + Without(s[1..], c))[1..] == Without(s[1..], c);
      }
    }
  }

  lemma BytesOfRepeat(c: char, count: nat)
    requires c < '\U{80}'
    ensures Bytes(Repeat(c, count)) == count
  {
    AsciiBytes(Repeat(c, count));
  }

  // ---------- What is captured ----------

  lemma ThreeParts(s: string, from: nat, to: nat)
    requires from <= to <= |s|
    ensures s == s[..from] + (s[from..to] + s[to..])
  {
  }

  lemma BytesAround(s: string, from: nat, to: nat)
    requires from <= to <= |s|
    ensures Bytes(s) >= from + Bytes(s[from..to]) + (|s| - to)
  {
    ThreeParts(s, from, to);
    BytesAppend(s[..from], s[from..to] + s[to..]);
    BytesAppend(s[from..to], s[to..]);
    BytesAtLeast(s[..from]);
    BytesAtLeast(s[to..]);
  }

  lemma SecondLineEnd(s: string, from: nat) returns (to: nat)
    requires from <= |s| && SecondLine(s, from).Some?
    ensures from <= to && to + 2 <= |s| && SecondLine(s, from).value == s[from..to]
    ensures '\n' !in s[from..to + 1]
  {
    to := LineFeed(s, from).value - 1;
  }

  lemma SecondLineIsShorter(s: string, from: nat)
    requires 7 <= from <= |s| && SecondLine(s, from).Some?
    ensures var pdu := SecondLine(s, from).value; '\n' !in pdu && Bytes(pdu) + 9 <= Bytes(s)
  {
    var to := SecondLineEnd(s, from);
    ShorterSlice(s, from, to, '\n');
    BytesAround(s, from, to);
  }

  /** A capture is one line, and the notification around it takes at least nine bytes more. */
  lemma CaptureAtIsShorter(s: string, i: nat)
    requires i <= |s| && CaptureAt(s, i).Some?
    ensures var pdu := CaptureAt(s, i).value; '\n' !in pdu && Bytes(pdu) + 9 <= Bytes(s)
  {
    SecondLineIsShorter(s, LineFeed(s, i + 5).value + 1);
  }

  lemma {:induction false} CaptureIsShorter(s: string, i: nat)
    requires i <= |s| && CaptureFrom(s, i).Some?
    ensures var pdu := CaptureFrom(s, i).value; '\n' !in pdu && Bytes(pdu) + 9 <= Bytes(s)
    decreases |s| - i
  {
    if CaptureAt(s, i).Some? {
      CaptureAtIsShorter(s, i);
    } else {
      CaptureIsShorter(s, i + 1);
    }
  }

  // ---------- What is read ----------

  lemma SenderDigits(swapped: string)
    requires |swapped| % 2 == 0 && Bytes(swapped) == FIELD && '\n' !in swapped
    ensures IsSender("+" + Without(swapped, 'F'))
  {
    var digits := Without(swapped, 'F');
    BytesWithout(swapped, 'F');
    assert ("+" + digits)[1..] == digits;
  }

  lemma SenderIsRead(field: string)
    requires Bytes(field) == FIELD && '\n' !in field && DecodePhone(field).Done?
    ensures IsSender(DecodePhone(field).value)
  {
    BytesOfSwapped(field);
    SenderDigits(SwapPairs(field));
  }

  lemma {:induction false} DecodedLength(hex: string)
    requires Hex.Decode(hex).Some?
    ensures |hex| == 2 * |Hex.Decode(hex).value|
  {
    if hex != "" {
      DecodedLength(hex[2..]);
    }
  }

  lemma {:induction false} GroupCount(bits: seq<bit>, width: nat)
    requires width > 0
    ensures |Group(bits, width)| * width <= |bits|
    decreases |bits|
  {
    if |bits| >= width {
      GroupCount(bits[width..], width);
      OneMore(|Group(bits, width)|, width);
    }
  }

  lemma UnpackedCount(octets: seq<nat>)
    ensures 7 * |Unpack(octets)| <= 8 * |octets|
  {
    StreamLength(octets, 8);
    GroupCount(Stream(octets, 8), 7);
  }

  lemma SymbolsEscape()
    ensures |SYMBOLS| == 32 && forall k :: 0 <= k < 32 && SYMBOLS[k] == '\U{1B}' ==> k == ESCAPE
  {
  }

  lemma NoEscapeInSigns()
    ensures '\U{1B}' !in SIGNS
  {
  }

  lemma NoEscapeInLetters()
    ensures '\U{1B}' !in LETTERS && '\U{1B}' !in SMALL_LETTERS
  {
  }

  lemma NoLaterEscape()
    ensures '\U{1B}' !in FROM_SPACE
  {
    NoEscapeInSigns();
    NoEscapeInLetters();
    assert '\U{1B}' !in " !\"#\U{A4}" && '\U{1B}' !in "\U{C4}\U{D6}\U{D1}\U{DC}\U{A7}";
    assert '\U{1B}' !in "\U{E4}\U{F6}\U{F1}\U{FC}\U{E0}";
  }

  lemma IsFromSpace(code: nat)
    requires 32 <= code < |BASIC|
    ensures BASIC[code] in FROM_SPACE
  {
    assert BASIC[code] == FROM_SPACE[code - 32];
  }

  lemma EscapeIsAlone(code: nat)
    requires code < |BASIC| && BASIC[code] == '\U{1B}'
    ensures code == ESCAPE
  {
    SymbolsEscape();
    if code < 32 {
      assert BASIC[code] == SYMBOLS[code];
    } else {
      IsFromSpace(code);
      NoLaterEscape();
    }
  }

  lemma BasicEncodes(code: nat)
    requires code < |BASIC| && code != ESCAPE
    ensures EncodeChar(BASIC[code]).Some? && |EncodeChar(BASIC[code]).value| == 1
  {
    EscapeSlot();
    if BASIC[code] == '\U{1B}' {
      EscapeIsAlone(code);
    }
  }

  lemma ExtensionEncodes(i: nat)
    requires i < |EXTENSION|
    ensures EncodeChar(EXTENSION[i]).Some? && |EncodeChar(EXTENSION[i]).value| <= 2
  {
    EscapeSlot();
    assert EXTENSION[i] != '\U{1B}';
  }

  /** A decoded text can be encoded, in no more septets than it was decoded from. */
  lemma {:induction false} DecodedFits(septets: seq<nat>)
    requires DecodeSeptets(septets).Some?
    ensures Fits(DecodeSeptets(septets).value, |septets|)
    decreases |septets|
  {
    AlphabetSize();
    if septets == [] {
    } else if septets[0] != ESCAPE {
      DecodedFits(septets[1..]);
      BasicEncodes(septets[0]);
      var rest := DecodeSeptets(septets[1..]).value;
      assert ([BASIC[septets[0]]] + rest)[1..] == rest;
    } else {
      DecodedFits(septets[2..]);
      var i := Find(septets[1], EXTENSION_CODES).value;
      ExtensionEncodes(i);
      var rest := DecodeSeptets(septets[2..]).value;
      assert ([EXTENSION[i]] + rest)[1..] == rest;
    }
  }

  /** The septets of two texts in a row. */
  lemma {:induction false} EncodeTextAppend(a: string, b: string)
    ensures EncodeText(a + b).Some? <==> EncodeText(a).Some? && EncodeText(b).Some?
    ensures EncodeText(a + b).Some? ==> EncodeText(a + b).value == EncodeText(a).value + EncodeText(b).value
  {
    Empty(b);
    if a != "" {
      AppendStep(a, b);
      EncodeTextAppend(a[1..], b);
    } else if EncodeText(b).Some? {
      Empty(EncodeText(b).value);
    }
  }

  lemma PrefixFits(kept: string, text: string, septets: nat)
    requires kept <= text && Fits(text, septets)
    ensures Fits(kept, septets)
  {
    assert text == kept + text[|kept|..];
    EncodeTextAppend(kept, text[|kept|..]);
  }

  lemma ShortBody(body: string)
    requires Bytes(body) <= 65 && Hex.Decode(Lower(body)).Some?
    ensures |Unpack(Hex.Decode(Lower(body)).value)| <= MAX_SEPTETS
  {
    BytesAtLeast(body);
    DecodedLength(Lower(body));
    UnpackedCount(Hex.Decode(Lower(body)).value);
  }

  lemma MessageIsRead(body: string, size: nat)
    requires Bytes(body) <= 65 && DecodeMessage(body, size).Done?
    ensures Fits(DecodeMessage(body, size).value, MAX_SEPTETS)
  {
    ShortBody(body);
    var septets := Unpack(Hex.Decode(Lower(body)).value);
    DecodedFits(septets);
    var text := DecodeSeptets(septets).value;
    TruncateIsPrefix(text, size);
    PrefixFits(Truncate(text, size).value, text, MAX_SEPTETS);
  }

  lemma SlicesAreParts(pdu: string)
    requires SlicesOf(pdu).Some?
    ensures var slices := SlicesOf(pdu).value;
            Bytes(slices.number) == FIELD && Bytes(slices.body) + 54 == Bytes(pdu)
    ensures forall c :: c in SlicesOf(pdu).value.number ==> c in pdu
  {
    var front := SplitBytes(pdu, 22).value;
    var number := SplitBytes(front.rest, 12).value;
    var middle := SplitBytes(number.rest, 18).value;
    var size := SplitBytes(middle.rest, 2).value;
    BytesAppend(front.front, front.rest);
    BytesAppend(number.front, number.rest);
    BytesAppend(middle.front, middle.rest);
    BytesAppend(size.front, size.rest);
  }

  lemma ReadArrives(pdu: string)
    requires '\n' !in pdu && Bytes(pdu) <= 119 && ReadPdu(pdu).Done?
    ensures Arrives(ReadPdu(pdu).value.number, ReadPdu(pdu).value.message)
  {
    SlicesAreParts(pdu);
    var slices := SlicesOf(pdu).value;
    SenderIsRead(slices.number);
    MessageIsRead(slices.body, Hex.DecodeOne(slices.size).value);
  }

  // ---------- What can be sent ----------

  /** The field from which a sender is read. */
  function Field(sender: string): (field: string)
    requires IsSender(sender)
  {
    var digits := sender[1..];
    BytesAtLeast(digits);
    SwapPairs(digits + Repeat('F', FIELD - Bytes(digits)))
  }

  lemma FieldIsRead(sender: string)
    requires IsSender(sender)
    ensures Bytes(Field(sender)) == FIELD && '\n' !in Field(sender)
    ensures DecodePhone(Field(sender)) == Done(sender)
  {
    var digits := sender[1..];
    var padded := digits + Repeat('F', FIELD - Bytes(digits));
    BytesAtLeast(digits);
    BytesOfSwapped(padded);
    BytesAppend(digits, Repeat('F', FIELD - Bytes(digits)));
    BytesOfRepeat('F', FIELD - Bytes(digits));
    SwapPairsInvolution(padded);
    WithoutPadding(digits, FIELD - Bytes(digits));
    assert sender == "+" + digits;
  }

  /** A PDU of zeros around the sender, the message and its number of bytes as the length. */
  function ArrivingPdu(sender: string, text: string): (pdu: string)
    requires Arrives(sender, text)
  {
    Repeat('0', 22) + (Field(sender) + (Repeat('0', 18)
    + (Upper(Hex.Octet(Bytes(text))) + EncodeMessage(text, Zeros).value)))
  }

  lemma {:induction false} FewBytes(text: string)
    requires EncodeText(text).Some?
    ensures Bytes(text) <= 4 * |EncodeText(text).value|
  {
    if text != "" {
      EncodeCharFits(text[0]);
      FewBytes(text[1..]);
    }
  }

  lemma ArrivingMessage(text: string)
    requires Fits(text, MAX_SEPTETS)
    ensures Bytes(text) < 256
    ensures DecodeMessage(EncodeMessage(text, Zeros).value, Bytes(text)) == Done(text)
    ensures Bytes(EncodeMessage(text, Zeros).value) <= 64 && '\n' !in EncodeMessage(text, Zeros).value
  {
    var septets := EncodeText(text).value;
    FewBytes(text);
    DecodedMessage(text, Bytes(text), Zeros);
    TruncateKeeps(text, ExtraText(|septets|, Zeros));
    PackedStream(septets, Zeros);
    HexBytes(Pack(septets, Zeros));
    HexIsOneLine(Pack(septets, Zeros));
  }

  lemma PartsAreRead(front: string, field: string, middle: string, size: string, body: string, value: nat)
    requires Bytes(front) == 22 && Bytes(field) == FIELD && Bytes(middle) == 18 && Bytes(size) == 2 == |size|
    requires Hex.DecodeOne(size) == Some(value) && DecodePhone(field).Done?
    ensures ReadPdu(front + (field + (middle + (size + body)))) == ReadBody(DecodePhone(field).value, value, body)
    ensures Bytes(front + (field + (middle + (size + body)))) == 54 + Bytes(body)
  {
    Sliced(front, field, middle, size, body);
    BytesAppend(front, field + (middle + (size + body)));
    BytesAppend(field, middle + (size + body));
    BytesAppend(middle, size + body);
    BytesAppend(size, body);
  }

  lemma OctetIsTwoBytes(value: nat)
    ensures Bytes(Upper(Hex.Octet(value))) == 2 && '\n' !in Upper(Hex.Octet(value))
  {
    SizeBytes(value);
    HexOne(value);
    HexIsOneLine([value]);
  }

  lemma ZerosAreOneLine(count: nat)
    ensures Bytes(Repeat('0', count)) == count && '\n' !in Repeat('0', count)
  {
    BytesOfRepeat('0', count);
  }

  lemma OneLine(front: string, field: string, middle: string, size: string, body: string, c: char)
    requires c !in front && c !in field && c !in middle && c !in size && c !in body
    ensures c !in front + (field + (middle + (size + body)))
  {
  }

  lemma ArrivingIsRead(sender: string, text: string)
    requires Arrives(sender, text)
    ensures ReadPdu(ArrivingPdu(sender, text)) == Done(Sms(sender, text))
    ensures Bytes(ArrivingPdu(sender, text)) <= 118
    ensures '\n' !in ArrivingPdu(sender, text) && ArrivingPdu(sender, text) != ""
  {
    var front, middle := Repeat('0', 22), Repeat('0', 18);
    var size, body := Upper(Hex.Octet(Bytes(text))), EncodeMessage(text, Zeros).value;
    ZerosAreOneLine(22);
    ZerosAreOneLine(18);
    FieldIsRead(sender);
    ArrivingMessage(text);
    OctetIsTwoBytes(Bytes(text));
    Hex.DecodeOneOctet(Bytes(text));
    PartsAreRead(front, Field(sender), middle, size, body, Bytes(text));
    OneLine(front, Field(sender), middle, size, body, '\n');
  }

  lemma ShortFrameBytes(pdu: string)
    ensures Bytes(Frame("", "", pdu, "")) == Bytes(pdu) + 9
  {
    var lead, rest := INDICATION + "" + "\r\n", pdu + "\r\n" + "";
    Empty(lead + rest);
    Empty(pdu + "\r\n");
    BytesAppend(lead, rest);
    BytesAppend(pdu, "\r\n");
    AsciiBytes(lead);
    AsciiBytes("\r\n");
  }

  /** The shortest notification of a PDU. */
  lemma ShortFrame(pdu: string)
    requires '\n' !in pdu && pdu != ""
    ensures Capture(Frame("", "", pdu, "")) == Some(pdu) && Bytes(Frame("", "", pdu, "")) == Bytes(pdu) + 9
  {
    NotificationIsParsed(pdu, [], "", "", "", []);
    ShortFrameBytes(pdu);
  }

  /**
    Exactly what can be received from one read of the modem: a sender that a field holds, and a text
    of at most 36 septets.
   */
  lemma ArrivesExactly(sms: Sms)
    ensures (exists response :: IsArrival(response, sms)) <==> Arrives(sms.number, sms.message)
  {
    if response :| IsArrival(response, sms) {
      CaptureIsShorter(response, 0);
      ReadArrives(Capture(response).value);
    }
    if Arrives(sms.number, sms.message) {
      var pdu := ArrivingPdu(sms.number, sms.message);
      ArrivingIsRead(sms.number, sms.message);
      ShortFrame(pdu);
      assert IsArrival(Frame("", "", pdu, ""), sms);
    }
  }

  /** Reads of at most the size of the buffer. */
  predicate AreShort(responses: seq<Result<string, SmsError>>) {
    forall i :: 0 <= i < |responses| && responses[i].Ok? ==> Bytes(responses[i].value) <= RESPONSE_SIZE
  }

  /** What waits receive has arrived in one of their reads. */
  lemma {:induction false} WaitsArrive(responses: seq<Result<string, SmsError>>)
    requires AreShort(responses)
    ensures forall w :: w in Waits(responses) && w.Received? ==> Arrives(w.sms.number, w.sms.message)
  {
    if responses != [] {
      WaitsArrive(responses[1..]);
      if responses[0].Ok? && Capture(responses[0].value).Some? {
        var w := Parsed(Capture(responses[0].value).value);
        if w.Received? {
          assert IsArrival(responses[0].value, w.sms);
          ArrivesExactly(w.sms);
        }
      }
    }
  }

  lemma ReceivedArrives(responses: seq<Result<string, SmsError>>)
    requires AreShort(responses)
    ensures var w := WaitFor(responses); w.Received? ==> Arrives(w.sms.number, w.sms.message)
  {
    WaitsArrive(responses);
    FirstWait(responses);
  }

  // ---------- What an opening can name ----------

  lemma {:induction false} AtLeastOneSeptet(text: string)
    requires EncodeText(text).Some?
    ensures |EncodeText(text).value| >= |text|
  {
    if text != "" {
      EncodeCharFits(text[0]);
      AtLeastOneSeptet(text[1..]);
    }
  }

  lemma RestFits(text: string)
    requires EncodeText(text).Some? && text != ""
    ensures EncodeText(text[1..]).Some?
    ensures |EncodeText(text).value| >= 1 + |EncodeText(text[1..]).value|
  {
    EncodeCharFits(text[0]);
  }

  lemma SplitWord(text: string)
    requires EncodeText(text).Some? && text != "" && !IsWhitespace(text[0])
    ensures var word, rest := text[..WordLength(text)], text[WordLength(text)..];
            && Words(text) == [word] + Words(rest) && (rest != "" ==> IsWhitespace(rest[0]))
            && EncodeText(word).Some? && EncodeText(rest).Some?
            && |EncodeText(text).value| == |EncodeText(word).value| + |EncodeText(rest).value|
  {
    assert text == text[..WordLength(text)] + text[WordLength(text)..];
    EncodeTextAppend(text[..WordLength(text)], text[WordLength(text)..]);
  }

  /** A text by its first word and what follows that, which begins with white space. */
  lemma {:induction false} FirstWord(text: string) returns (rest: string)
    requires EncodeText(text).Some? && Words(text) != []
    ensures Words(rest) == Words(text)[1..] && (rest != "" ==> IsWhitespace(rest[0]))
    ensures EncodeText(Words(text)[0]).Some? && EncodeText(rest).Some?
    ensures |EncodeText(text).value| >= |EncodeText(Words(text)[0]).value| + |EncodeText(rest).value|
  {
    if IsWhitespace(text[0]) {
      RestFits(text);
      rest := FirstWord(text[1..]);
    } else {
      SplitWord(text);
      rest := text[WordLength(text)..];
    }
  }

  /** Two words of a text, with white space between them. */
  lemma TwoWordsFit(text: string)
    requires EncodeText(text).Some? && |Words(text)| > 1
    ensures EncodeText(Words(text)[0]).Some? && EncodeText(Words(text)[1]).Some?
    ensures |EncodeText(text).value| >= |EncodeText(Words(text)[0]).value| + 1 + |EncodeText(Words(text)[1]).value|
  {
    var rest := FirstWord(text);
    RestFits(rest);
    var _ := FirstWord(rest[1..]);
  }

  /** An arriving `open` leaves its argument at most 31 septets. */
  lemma ArgumentFits(text: string)
    requires Fits(text, MAX_SEPTETS) && |Words(text)| > 1 && Lower(Words(text)[0]) == "open"
    ensures Fits(Words(text)[1], MAX_ARGUMENT)
  {
    TwoWordsFit(text);
    AtLeastOneSeptet(Words(text)[0]);
    assert |Words(text)[0]| == |"open"|;
  }

  lemma ShortTextFits(text: string)
    requires forall c :: c in text ==> IsPlain(c)
    requires |text| <= MAX_SEPTETS
    ensures Fits(text, MAX_SEPTETS)
  {
    PlainText(text);
  }

  /** An argument of at most 31 septets arrives behind an `open`. */
  lemma OpenFits(argument: string)
    requires Fits(argument, MAX_ARGUMENT)
    ensures Fits("open " + argument, MAX_SEPTETS)
  {
    forall c | c in "open " ensures IsPlain(c) {
      AsciiIsPlain(c);
    }
    PlainText("open ");
    EncodeTextAppend("open ", argument);
  }
}
