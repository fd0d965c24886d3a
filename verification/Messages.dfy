/** Message bodies: `encode_message` and `decode_message`. */
module Messages {
  import opened Wrappers
  import opened Alphabet
  import opened BitStream
  import opened Septets
  import opened Sequences
  import opened Text
  import Hex

  datatype MessageError = InvalidData

  /** `String::truncate`: keeps whole characters up to `size` bytes, or panics inside a character. */
  function Truncate(text: string, size: nat): (r: Outcome<string, MessageError>) {
    if text == "" || size == 0 then Done("")
    else if size < CharBytes(text[0]) then Panicked
    else match Truncate(text[1..], size - CharBytes(text[0]))
      case Done(rest) => Done([text[0]] + rest)
      case Failed(e) => Failed(e)
      case Panicked => Panicked
  }

  function EncodeMessage(message: string, fill: Fill): (r: Result<string, MessageError>) {
    match EncodeText(message)
    case Some(septets) => Ok(Upper(Hex.Encode(Pack(septets, fill))))
    case None => Err(InvalidData)
  }

  function DecodeMessage(encoded: string, size: nat): (r: Outcome<string, MessageError>) {
    match Hex.Decode(Lower(encoded))
    case None => Failed(InvalidData)
    case Some(octets) =>
      match DecodeSeptets(Unpack(octets))
      case None => Failed(InvalidData)
      case Some(text) => Truncate(text, size)
  }

  /** A character that is one septet and one UTF-8 byte. */
  predicate IsPlain(c: char) {
    c < '\U{80}' && EncodeChar(c).Some? && |EncodeChar(c).value| == 1
  }

  /** The character that unpacking adds to a message of `count` septets. */
  function ExtraText(count: nat, fill: Fill): string {
    if count % 8 != 7 then "" else if fill == Zeros then "@" else "\r"
  }

  lemma EncodeCharFits(c: char)
    requires EncodeChar(c).Some?
    ensures Fit(EncodeChar(c).value, 7)
    ensures 1 <= |EncodeChar(c).value| <= 2
  {
    AlphabetSize();
    assert Power2(7) == 128;
  }

  lemma {:induction false} EncodeTextFits(text: string)
    requires EncodeText(text).Some?
    ensures Fit(EncodeText(text).value, 7)
  {
    if text != "" {
      EncodeCharFits(text[0]);
      EncodeTextFits(text[1..]);
    }
  }

  lemma DecodeEncodedChar(c: char, tail: seq<nat>)
    requires EncodeChar(c).Some?
    requires DecodeSeptets(tail).Some?
    ensures DecodeSeptets(EncodeChar(c).value + tail) == Some([c] + DecodeSeptets(tail).value)
  {
    AlphabetSize();
    var septets := EncodeChar(c).value;
    if |septets| == 1 {
      assert (septets + tail)[1..] == tail;
    } else {
      assert (septets + tail)[2..] == tail;
      ExtensionCodesDistinct(Find(c, EXTENSION).value);
    }
  }

  lemma {:induction false} FirstFound(xs: seq<nat>, i: nat)
    requires i < |xs| && forall j :: 0 <= j < i ==> xs[j] != xs[i]
    ensures Find(xs[i], xs) == Some(i)
  {
    if i > 0 {
      FirstFound(xs[1..], i - 1);
    }
  }

  lemma ExtensionCodesGrow(j: nat, i: nat)
    requires j < i < |EXTENSION_CODES|
    ensures EXTENSION_CODES[j] != EXTENSION_CODES[i]
  {
  }

  lemma ExtensionCodesDistinct(i: nat)
    requires i < |EXTENSION_CODES|
    ensures Find(EXTENSION_CODES[i], EXTENSION_CODES) == Some(i)
  {
    forall j | 0 <= j < i ensures EXTENSION_CODES[j] != EXTENSION_CODES[i] {
      ExtensionCodesGrow(j, i);
    }
    FirstFound(EXTENSION_CODES, i);
  }

  lemma DecodeEncodedStep(text: string, tail: seq<nat>)
    requires text != "" && EncodeText(text).Some?
    requires DecodeSeptets(EncodeText(text[1..]).value + tail).Some?
    ensures DecodeSeptets(EncodeText(text).value + tail)
         == Some([text[0]] + DecodeSeptets(EncodeText(text[1..]).value + tail).value)
  {
    var first, rest := EncodeChar(text[0]).value, EncodeText(text[1..]).value;
    assert first + rest + tail == first + (rest + tail);
    DecodeEncodedChar(text[0], rest + tail);
  }

  lemma {:induction false} DecodeEncodedText(text: string, tail: seq<nat>)
    requires EncodeText(text).Some?
    requires DecodeSeptets(tail).Some?
    ensures DecodeSeptets(EncodeText(text).value + tail) == Some(text + DecodeSeptets(tail).value)
  {
    if text == "" {
      Empty(tail);
      Empty(DecodeSeptets(tail).value);
    } else {
      DecodeEncodedText(text[1..], tail);
      DecodeEncodedStep(text, tail);
      HeadTail(text);
      Associative([text[0]], text[1..], DecodeSeptets(tail).value);
    }
  }

  lemma DecodeExtra(count: nat, fill: Fill)
    ensures DecodeSeptets(Extra(count, fill)) == Some(ExtraText(count, fill))
  {
    if count % 8 == 7 {
      var code := Extra(count, fill)[0];
      AlphabetSize();
      assert Extra(count, fill) == [code] && [code][1..] == [];
      assert DecodeSeptets([]) == Some("");
      assert [BASIC[code]] + "" == ExtraText(count, fill);
    }
  }

  /** What decoding makes of an encoded message, for every message that can be encoded. */
  lemma DecodedMessage(message: string, size: nat, fill: Fill)
    requires EncodeText(message).Some?
    ensures DecodeMessage(EncodeMessage(message, fill).value, size)
         == Truncate(message + ExtraText(|EncodeText(message).value|, fill), size)
  {
    var septets := EncodeText(message).value;
    EncodeTextFits(message);
    PackedStream(septets, fill);
    Hex.DecodeEncode(Pack(septets, fill));
    UnpackPack(septets, fill);
    DecodeExtra(|septets|, fill);
    DecodeEncodedText(message, Extra(|septets|, fill));
  }

  lemma {:induction false} TruncateKeeps(text: string, dropped: string)
    ensures Truncate(text + dropped, Bytes(text)) == Done(text)
  {
    if text != "" {
      TruncateKeeps(text[1..], dropped);
      assert (text + dropped)[1..] == text[1..] + dropped;
      assert [text[0]] + text[1..] == text;
    }
  }

  lemma {:induction false} TruncateShort(text: string, size: nat)
    requires Bytes(text) <= size
    ensures Truncate(text, size) == Done(text)
  {
    if text != "" {
      TruncateShort(text[1..], size - CharBytes(text[0]));
      assert [text[0]] + text[1..] == text;
    }
  }

  lemma {:induction false} TruncateIsPrefix(text: string, size: nat)
    requires Truncate(text, size).Done?
    ensures var kept := Truncate(text, size).value;
            kept <= text && Bytes(kept) <= size && (kept == text || Bytes(kept) == size)
  {
    if text != "" && size != 0 {
      TruncateIsPrefix(text[1..], size - CharBytes(text[0]));
      var rest := Truncate(text[1..], size - CharBytes(text[0])).value;
      assert ([text[0]] + rest)[1..] == rest;
    }
  }

  /**
    The exact condition for a message to survive `encode_message` and `decode_message`, for every
    message of the alphabet and its own septet count: no more UTF-8 bytes than septets, and exactly
    as many when packing leaves room for one more septet.
   */
  lemma RoundTrip(message: string, fill: Fill)
    requires EncodeText(message).Some?
    ensures var count := |EncodeText(message).value|;
            DecodeMessage(EncodeMessage(message, fill).value, count) == Done(message)
            <==> Survives(message)
  {
    var count := |EncodeText(message).value|;
    var extra := ExtraText(count, fill);
    DecodedMessage(message, count, fill);
    if Truncate(message + extra, count) == Done(message) {
      TruncateIsPrefix(message + extra, count);
      assert extra != "" ==> message != message + extra;
    } else if Survives(message) {
      if extra == "" {
        assert message + extra == message;
        TruncateShort(message, count);
      } else {
        TruncateKeeps(message, extra);
      }
    }
  }

  predicate Survives(message: string)
    requires EncodeText(message).Some?
  {
    var count := |EncodeText(message).value|;
    Bytes(message) <= count && (count % 8 == 7 ==> Bytes(message) == count)
  }

  lemma {:induction false} PlainText(message: string)
    requires forall c :: c in message ==> IsPlain(c)
    ensures EncodeText(message).Some?
    ensures |EncodeText(message).value| == |message| == Bytes(message)
  {
    if message != "" {
      PlainText(message[1..]);
      var first, rest := EncodeChar(message[0]), EncodeText(message[1..]);
      assert message[0] in message && IsPlain(message[0]);
      assert EncodeText(message) == Some(first.value + rest.value);
    }
  }

  /** The characters whose code is their ASCII code: letters, digits, the space and most punctuation. */
  predicate HasAsciiCode(c: char) {
    || c == '\n' || c == '\r' || ' ' <= c <= '#' || '%' <= c <= '?' || 'A' <= c <= 'Z' || 'a' <= c <= 'z'
  }

  lemma SignsAreBasic(c: char)
    requires '%' <= c <= '?'
    ensures c in BASIC
  {
    assert SIGNS[(c - '%') as int] == c;
    assert c in SIGNS;
  }

  lemma LettersAreBasic(c: char)
    requires 'A' <= c <= 'Z'
    ensures c in BASIC
  {
    assert LETTERS[(c - 'A') as int] == c;
    assert c in LETTERS;
  }

  lemma SmallLettersAreBasic(c: char)
    requires 'a' <= c <= 'z'
    ensures c in BASIC
  {
    assert SMALL_LETTERS[(c - 'a') as int] == c;
    assert c in SMALL_LETTERS;
  }

  lemma SpacesAreBasic(c: char)
    requires c == '\n' || c == '\r' || ' ' <= c <= '#'
    ensures c in BASIC
  {
    assert BASIC[10] == '\n' && BASIC[13] == '\r';
    assert BASIC[32] == ' ' && BASIC[33] == '!' && BASIC[34] == '"' && BASIC[35] == '#';
  }

  lemma AsciiIsBasic(c: char)
    requires HasAsciiCode(c)
    ensures c in BASIC
  {
    if '%' <= c <= '?' {
      SignsAreBasic(c);
    } else if 'A' <= c <= 'Z' {
      LettersAreBasic(c);
    } else if 'a' <= c <= 'z' {
      SmallLettersAreBasic(c);
    } else {
      SpacesAreBasic(c);
    }
  }

  lemma BasicIsPlain(c: char)
    requires c in BASIC && c < '\U{80}' && c != '\U{1B}'
    ensures IsPlain(c)
  {
    EscapeSlot();
  }

  lemma EscapeSlot()
    ensures |BASIC| == 128 && BASIC[ESCAPE] == '\U{1B}'
  {
  }

  lemma AsciiIsPlain(c: char)
    requires HasAsciiCode(c)
    ensures IsPlain(c)
  {
    AsciiIsBasic(c);
    BasicIsPlain(c);
  }

  /** Every message of plain characters survives, at whatever length. */
  lemma PlainRoundTrip(message: string, fill: Fill)
    requires forall c :: c in message ==> IsPlain(c)
    ensures EncodeMessage(message, fill).Ok?
    ensures DecodeMessage(EncodeMessage(message, fill).value, |message|) == Done(message)
  {
    PlainText(message);
    RoundTrip(message, fill);
  }

  lemma AccentIsOneSeptet()
    ensures EncodeChar('\U{E9}').Some? && |EncodeChar('\U{E9}').value| == 1
  {
    assert BASIC[5] == '\U{E9}' && BASIC[ESCAPE] == '\U{1B}';
  }

  lemma OneCharText(c: char)
    requires EncodeChar(c).Some?
    ensures EncodeText([c]) == EncodeChar(c)
  {
    var septets := EncodeChar(c).value;
    assert [c][1..] == "";
    assert septets + [] == septets;
  }

  /** Some character of the text straddles its byte `size`. */
  ghost predicate Cut(text: string, size: nat) {
    exists k :: IsCutAt(text, size, k)
  }

  predicate IsCutAt(text: string, size: nat, k: nat) {
    k < |text| && Bytes(text[..k]) < size < Bytes(text[..k]) + CharBytes(text[k])
  }

  lemma CutStep(text: string, size: nat, k: nat)
    requires text != "" && size >= CharBytes(text[0])
    ensures IsCutAt(text, size, k + 1) <==> IsCutAt(text[1..], size - CharBytes(text[0]), k)
  {
    if k + 1 < |text| {
      assert text[..k + 1][1..] == text[1..][..k];
    }
  }

  /** Truncation panics exactly inside a character. */
  lemma {:induction false} TruncatePanicsInside(text: string, size: nat)
    ensures Truncate(text, size) == Panicked <==> Cut(text, size)
  {
    if text == "" || size == 0 {
    } else if size < CharBytes(text[0]) {
      assert IsCutAt(text, size, 0);
    } else {
      var left := size - CharBytes(text[0]);
      TruncatePanicsInside(text[1..], left);
      if Cut(text[1..], left) {
        var k: nat :| IsCutAt(text[1..], left, k);
        CutStep(text, size, k);
      }
      if Cut(text, size) {
        var k: nat :| IsCutAt(text, size, k);
        assert text[..0] == "";
        CutStep(text, size, k - 1);
      }
    }
  }

  lemma {:induction false} TruncateNeverFails(text: string, size: nat)
    ensures !Truncate(text, size).Failed?
  {
    if text != "" && size >= CharBytes(text[0]) {
      TruncateNeverFails(text[1..], size - CharBytes(text[0]));
    }
  }

  /** Decoded as septets, some data have a character that straddles the byte taken for their end. */
  ghost predicate DataCut(data: seq<nat>, size: nat) {
    DecodeSeptets(Unpack(data)).Some? && Cut(DecodeSeptets(Unpack(data)).value, size)
  }

  /** What makes decoding of any text panic, and what makes it fail. */
  lemma AnyDecodingPanics(encoded: string, size: nat)
    ensures var data := Hex.Decode(Lower(encoded));
            && (DecodeMessage(encoded, size) == Panicked <==> data.Some? && DataCut(data.value, size))
            && (DecodeMessage(encoded, size).Failed? <==> data.None? || DecodeSeptets(Unpack(data.value)).None?)
  {
    var data := Hex.Decode(Lower(encoded));
    if data.Some? && DecodeSeptets(Unpack(data.value)).Some? {
      TruncatePanicsInside(DecodeSeptets(Unpack(data.value)).value, size);
      TruncateNeverFails(DecodeSeptets(Unpack(data.value)).value, size);
    }
  }

  /** Decoding an encoded message panics exactly when the size lies inside one of its characters. */
  lemma DecodingPanics(message: string, size: nat, fill: Fill)
    requires EncodeText(message).Some?
    ensures var text := message + ExtraText(|EncodeText(message).value|, fill);
            && (DecodeMessage(EncodeMessage(message, fill).value, size) == Panicked <==> Cut(text, size))
            && !DecodeMessage(EncodeMessage(message, fill).value, size).Failed?
  {
    DecodedMessage(message, size, fill);
    TruncatePanicsInside(message + ExtraText(|EncodeText(message).value|, fill), size);
    TruncateNeverFails(message + ExtraText(|EncodeText(message).value|, fill), size);
  }

  /** A one-septet character of several bytes, alone in a message. */
  lemma WideCharPanics(c: char, fill: Fill)
    requires EncodeChar(c).Some? && |EncodeChar(c).value| == 1 && CharBytes(c) > 1
    ensures EncodeText([c]).Some? && |EncodeText([c]).value| == 1
    ensures DecodeMessage(EncodeMessage([c], fill).value, 1) == Panicked
  {
    OneCharText(c);
    Empty([c]);
    assert IsCutAt([c], 1, 0);
    DecodingPanics([c], 1, fill);
  }

  lemma AccentPanics(fill: Fill)
    ensures EncodeMessage("\U{E9}", fill).Ok?
    ensures DecodeMessage(EncodeMessage("\U{E9}", fill).value, 1) == Panicked
  {
    AccentIsOneSeptet();
    assert "\U{E9}" == ['\U{E9}'];
    WideCharPanics('\U{E9}', fill);
  }
}
