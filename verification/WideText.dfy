/**
  Deliveries in UCS2: the daemon reads them as septets, too. No message but the empty one is ever
  received as it was sent.
 */
module WideText {
  import opened Wrappers
  import opened Alphabet
  import opened BitStream
  import opened Delivery
  import opened Messages
  import opened Pdu
  import opened Septets
  import opened Sequences
  import Hex

  const EURO: char := '\U{20AC}'
  const EURO_CODE: nat := 0x65

  /** Characters of the Basic Multilingual Plane, two octets each, high octet first. */
  predicate IsBmp(message: string) {
    forall i :: 0 <= i < |message| ==> message[i] < '\U{10000}'
  }

  function High(c: char): nat {
    c as int / 256
  }

  function Ucs2Octets(message: string): (octets: seq<nat>)
    ensures |octets| == 2 * |message|
  {
    if message == "" then [] else [High(message[0]), message[0] as int % 256] + Ucs2Octets(message[1..])
  }

  predicate IsUcs2Deliver(d: Deliver) {
    && IsEnvelope(d.envelope) && IsPlainDeliver(d.envelope.header)
    && AlphabetOf(d.envelope.coding) == Ucs2
    && IsBmp(d.message) && 2 * |d.message| < 256
  }

  /** In UCS2, TP-User-Data-Length counts octets. */
  function Ucs2Text(d: Deliver): string
    requires IsUcs2Deliver(d)
  {
    DeliverText(d.envelope, 2 * |d.message|, Ucs2Octets(d.message))
  }

  lemma {:induction false} OctetsOf(message: string, i: nat)
    requires i < |message|
    ensures Ucs2Octets(message)[2 * i] == High(message[i])
    ensures Ucs2Octets(message)[2 * i + 1] == message[i] as int % 256
  {
    if i > 0 {
      OctetsOf(message[1..], i - 1);
    }
  }

  lemma OctetsFit(message: string)
    requires IsBmp(message)
    ensures Fit(Ucs2Octets(message), 8)
  {
    assert Power2(8) == 256;
    forall k | 0 <= k < 2 * |message| ensures Ucs2Octets(message)[k] < 256 {
      OctetsOf(message, k / 2);
      assert k == 2 * (k / 2) || k == 2 * (k / 2) + 1;
    }
  }

  // ---------- Bits and septets ----------

  lemma {:induction false} GroupAt(bits: seq<bit>, width: nat, k: nat)
    requires width > 0 && k < |Group(bits, width)|
    ensures 0 <= k * width && k * width + width <= |bits|
    ensures Group(bits, width)[k] == FromBits(bits[k * width..k * width + width])
    decreases k
  {
    if k > 0 {
      GroupAt(bits[width..], width, k - 1);
      OneMore(k, width);
      assert bits[width..][(k - 1) * width..(k - 1) * width + width] == bits[k * width..k * width + width];
    }
  }

  lemma {:induction false} GroupLength(bits: seq<bit>, width: nat, count: nat)
    requires width > 0 && |bits| >= count * width
    ensures |Group(bits, width)| >= count
    decreases count
  {
    if count > 0 {
      OneMore(count, width);
      GroupLength(bits[width..], width, count - 1);
    }
  }

  const ZERO_BITS: seq<bit> := [0, 0, 0, 0, 0, 0, 0, 0]
  const THREE_BITS: seq<bit> := [1, 1, 0, 0, 0, 0, 0, 0]

  ghost predicate IsHighAt(bits: seq<bit>, at: nat) {
    at + 8 <= |bits| && (bits[at..at + 8] == ZERO_BITS || bits[at..at + 8] == THREE_BITS)
  }

  /** Octet `2a` is 0 or 3: the high octet of a character of the default alphabet. */
  ghost predicate IsHighOf(bits: seq<bit>, a: nat) {
    IsHighAt(bits, 16 * a)
  }

  lemma OctetBits(octets: seq<nat>, k: nat, at: nat)
    requires k < |octets| && at == 8 * k
    ensures at + 8 <= |Stream(octets, 8)| && Stream(octets, 8)[at..at + 8] == ToBits(octets[k], 8)
  {
    StreamLength(octets, 8);
    forall b | 0 <= b < 8 ensures Stream(octets, 8)[at + b] == ToBits(octets[k], 8)[b] {
      OctetBit(octets, k, b);
    }
  }

  lemma SmallBits(value: nat)
    requires value == 0 || value == 3
    ensures ToBits(value, 8) == if value == 0 then ZERO_BITS else THREE_BITS
  {
  }

  lemma HighAt(bits: seq<bit>, at: nat, octet: nat)
    requires octet == 0 || octet == 3
    requires at + 8 <= |bits| && bits[at..at + 8] == ToBits(octet, 8)
    ensures IsHighAt(bits, at)
  {
    SmallBits(octet);
  }

  lemma HighOctet(octets: seq<nat>, k: nat, at: nat)
    requires k < |octets| && at == 8 * k && (octets[k] == 0 || octets[k] == 3)
    ensures IsHighAt(Stream(octets, 8), at)
  {
    OctetBits(octets, k, at);
    HighAt(Stream(octets, 8), at, octets[k]);
  }

  lemma HighBits(octets: seq<nat>, a: nat)
    requires 2 * a < |octets| && (octets[2 * a] == 0 || octets[2 * a] == 3)
    ensures IsHighOf(Stream(octets, 8), a)
  {
    HighOctet(octets, 2 * a, 16 * a);
  }

  /** The escape and the code of the euro sign. */
  const EURO_BITS: seq<bit> := [1, 1, 0, 1, 1, 0, 0, 1, 0, 1, 0, 0, 1, 1]

  lemma EuroBits()
    ensures ToBits(ESCAPE, 7) + ToBits(EURO_CODE, 7) == EURO_BITS
  {
    assert ToBits(ESCAPE, 7) == [1, 1, 0, 1, 1, 0, 0];
    assert ToBits(EURO_CODE, 7) == [1, 0, 1, 0, 0, 1, 1];
  }

  lemma BitOf(bits: seq<bit>, from: nat, to: nat, k: nat)
    requires from + k < to <= |bits|
    ensures bits[from..to][k] == bits[from + k]
  {
  }

  /** A euro sign cannot begin in a high octet. */
  lemma NoEuroInHigh(bits: seq<bit>, a: nat, offset: nat)
    requires offset < 8 && 16 * a + offset + 14 <= |bits| && IsHighOf(bits, a)
    ensures bits[16 * a + offset..16 * a + offset + 14] != EURO_BITS
  {
    var k := if offset == 0 then 3 else if offset == 1 then 1 else 0;
    BitOf(bits, 16 * a + offset, 16 * a + offset + 14, k);
    BitOf(bits, 16 * a, 16 * a + 8, offset + k);
    assert bits[16 * a..16 * a + 8][offset + k] == 0 && EURO_BITS[k] == 1;
    assert bits[16 * a + offset..16 * a + offset + 14][k] == 0;
  }

  lemma SharedBit(bits: seq<bit>, a: nat, lead: nat, b: nat)
    requires lead <= 16 * a && lead + b < 14 && b < 8
    requires 16 * a - lead + 14 <= |bits| && 16 * a + 8 <= |bits|
    ensures bits[16 * a - lead..16 * a - lead + 14][lead + b] == bits[16 * a..16 * a + 8][b]
  {
    BitOf(bits, 16 * a - lead, 16 * a - lead + 14, lead + b);
    BitOf(bits, 16 * a, 16 * a + 8, b);
  }

  /** Nor can it begin in a low octet, as it would go through the next high one. */
  lemma NoEuroBeforeHigh(bits: seq<bit>, a: nat, lead: nat)
    requires 1 <= lead <= 8 && lead <= 16 * a && 16 * a - lead + 14 <= |bits| && IsHighOf(bits, a)
    ensures bits[16 * a - lead..16 * a - lead + 14] != EURO_BITS
  {
    SharedBit(bits, a, lead, 0);
    SharedBit(bits, a, lead, 1);
    SharedBit(bits, a, lead, 2);
    if lead == 3 {
      SharedBit(bits, a, lead, 4);
    }
  }

  /** Bits in which every other octet is 0 or 3 hold no euro sign, wherever it would begin. */
  lemma NoEuroBits(bits: seq<bit>, at: nat, count: nat)
    requires at + 14 <= 16 * count <= |bits|
    requires forall a :: 0 <= a < count ==> IsHighOf(bits, a)
    ensures bits[at..at + 14] != EURO_BITS
  {
    var a, offset := at / 16, at % 16;
    if offset < 8 {
      assert IsHighOf(bits, a);
      NoEuroInHigh(bits, a, offset);
    } else {
      assert IsHighOf(bits, a + 1);
      NoEuroBeforeHigh(bits, a + 1, 16 - offset);
    }
  }

  // ---------- Characters ----------

  /** The septet at which a character begins. */
  function StartOf(septets: seq<nat>, i: nat): (k: nat)
    requires DecodeSeptets(septets).Some? && i < |DecodeSeptets(septets).value|
    ensures i <= k < |septets|
    decreases i
  {
    if i == 0 then 0
    else if septets[0] != ESCAPE then 1 + StartOf(septets[1..], i - 1)
    else 2 + StartOf(septets[2..], i - 1)
  }

  lemma {:induction false} StartIsEarly(septets: seq<nat>, i: nat)
    requires DecodeSeptets(septets).Some? && i < |DecodeSeptets(septets).value|
    ensures StartOf(septets, i) <= 2 * i
    decreases i
  {
    if i > 0 {
      StartIsEarly(if septets[0] != ESCAPE then septets[1..] else septets[2..], i - 1);
    }
  }

  /** What stands at a septet where a character begins. */
  predicate Begins(septets: seq<nat>, k: nat, c: char) {
    && k < |septets|
    && if septets[k] != ESCAPE then septets[k] < |BASIC| && BASIC[septets[k]] == c
       else k + 1 < |septets| && Find(septets[k + 1], EXTENSION_CODES).Some?
            && EXTENSION[Find(septets[k + 1], EXTENSION_CODES).value] == c
  }

  /** The septets behind the first character. */
  function Tail(septets: seq<nat>): seq<nat>
    requires septets != [] && DecodeSeptets(septets).Some?
  {
    if septets[0] != ESCAPE then septets[1..] else septets[2..]
  }

  lemma FirstBegins(septets: seq<nat>)
    requires septets != [] && DecodeSeptets(septets).Some?
    ensures DecodeSeptets(septets).value != "" && DecodeSeptets(Tail(septets)).Some?
    ensures DecodeSeptets(septets).value[1..] == DecodeSeptets(Tail(septets)).value
    ensures Begins(septets, 0, DecodeSeptets(septets).value[0])
  {
    AlphabetSize();
  }

  lemma BeginsLater(septets: seq<nat>, k: nat, c: char)
    requires septets != [] && DecodeSeptets(septets).Some? && Begins(Tail(septets), k, c)
    ensures Begins(septets, |septets| - |Tail(septets)| + k, c)
  {
    var step := |septets| - |Tail(septets)|;
    assert septets[step..] == Tail(septets);
    assert septets[step + k] == Tail(septets)[k];
    assert k + 1 < |Tail(septets)| ==> septets[step + k + 1] == Tail(septets)[k + 1];
  }

  lemma {:induction false} CharacterBegins(septets: seq<nat>, i: nat)
    requires DecodeSeptets(septets).Some? && i < |DecodeSeptets(septets).value|
    ensures Begins(septets, StartOf(septets, i), DecodeSeptets(septets).value[i])
    decreases i
  {
    FirstBegins(septets);
    if i > 0 {
      CharacterBegins(Tail(septets), i - 1);
      BeginsLater(septets, StartOf(Tail(septets), i - 1), DecodeSeptets(septets).value[i]);
    }
  }

  // ---------- The alphabet's characters ----------

  /** Latin-1 or a Greek capital: the high octet is 0 or 3. */
  predicate IsNarrow(c: char) {
    c < '\U{100}' || '\U{393}' <= c <= '\U{3A9}'
  }

  predicate IsNarrowText(s: string) {
    forall i :: 0 <= i < |s| ==> IsNarrow(s[i])
  }

  lemma NarrowHigh(c: char)
    requires IsNarrow(c)
    ensures (High(c) == 0 || High(c) == 3) && CharBytes(c) <= 2 && c != EURO
  {
  }

  lemma NarrowSymbols(k: nat)
    requires k < |SYMBOLS|
    ensures IsNarrow(SYMBOLS[k])
  {
  }

  lemma NarrowSigns(c: char)
    requires c in SIGNS
    ensures c < '\U{100}'
  {
  }

  lemma NarrowLetters(c: char)
    requires c in LETTERS || c in SMALL_LETTERS
    ensures c < '\U{100}'
  {
  }

  lemma NarrowLater(c: char)
    requires c in FROM_SPACE
    ensures IsNarrow(c)
  {
    if c in SIGNS {
      NarrowSigns(c);
    } else if c in LETTERS || c in SMALL_LETTERS {
      NarrowLetters(c);
    }
  }

  lemma BasicIsNarrow(code: nat)
    requires code < |BASIC|
    ensures IsNarrow(BASIC[code])
  {
    AlphabetSize();
    if code < |SYMBOLS| {
      NarrowSymbols(code);
    } else {
      NarrowLater(BASIC[code]);
    }
  }

  /** The euro sign, the last of the extension table, is its only wide character. */
  lemma ExtensionIsNarrow(i: nat)
    requires i < |EXTENSION|
    ensures if i == 9 then EXTENSION[i] == EURO && EXTENSION_CODES[i] == EURO_CODE else IsNarrow(EXTENSION[i])
  {
  }

  // ---------- What is received ----------

  /** The text that the daemon decodes begins with the message. */
  predicate IsReflected(message: string) {
    var septets := Unpack(Ucs2Octets(message));
    DecodeSeptets(septets).Some? && message <= DecodeSeptets(septets).value
  }

  function Decoded(message: string): string
    requires IsReflected(message)
  {
    DecodeSeptets(Unpack(Ucs2Octets(message))).value
  }

  lemma UnpackedAtLeast(octets: seq<nat>, count: nat)
    requires 7 * count <= 8 * |octets|
    ensures |Unpack(octets)| >= count
  {
    StreamLength(octets, 8);
    GroupLength(Stream(octets, 8), 7, count);
  }

  lemma {:induction false} FewerBits(value: nat, width: nat)
    ensures ToBits(value, width + 1)[..width] == ToBits(value, width)
  {
    if width > 0 {
      FewerBits(value / 2, width - 1);
    }
  }

  lemma FirstSeptet(octets: seq<nat>)
    requires |octets| >= 2 && octets[0] < 128
    ensures |Unpack(octets)| >= 2 && Unpack(octets)[0] == octets[0]
  {
    var bits := Stream(octets, 8);
    UnpackedAtLeast(octets, 2);
    OctetBits(octets, 0, 0);
    FewerBits(octets[0], 7);
    GroupAt(bits, 7, 0);
    assert bits[0..7] == bits[0..8][..7];
    assert Power2(7) == 128;
    FromToBits(octets[0], 7);
  }

  lemma AtBits()
    ensures ToBits(0, 7) == [0, 0, 0, 0, 0, 0, 0] && ToBits(0x40, 8) == [0, 0, 0, 0, 0, 0, 1, 0]
  {
  }

  lemma ZeroSlice(bits: seq<bit>)
    requires |bits| >= 16 && bits[0..8] == [0, 0, 0, 0, 0, 0, 0, 0] && bits[8..16] == [0, 0, 0, 0, 0, 0, 1, 0]
    ensures bits[7..14] == [0, 0, 0, 0, 0, 0, 0]
  {
    BitOf(bits, 0, 8, 7);
    forall k | 8 <= k < 14 ensures bits[k] == 0 {
      BitOf(bits, 8, 16, k - 8);
    }
  }

  lemma SecondSeptet(octets: seq<nat>)
    requires |octets| >= 2 && octets[0] == 0 && octets[1] == 0x40
    ensures |Unpack(octets)| >= 2 && Unpack(octets)[1] == 0
  {
    UnpackedAtLeast(octets, 2);
    OctetBits(octets, 0, 0);
    OctetBits(octets, 1, 8);
    SmallBits(0);
    AtBits();
    ZeroSlice(Stream(octets, 8));
    GroupAt(Stream(octets, 8), 7, 1);
    FromToBits(0, 7);
  }

  /** A decoded character is narrow, or the euro sign behind its escape. */
  lemma CharacterOf(septets: seq<nat>, k: nat, c: char)
    requires Begins(septets, k, c)
    ensures IsNarrow(c) || (c == EURO && septets[k] == ESCAPE && k + 1 < |septets| && septets[k + 1] == EURO_CODE)
  {
    if septets[k] != ESCAPE {
      BasicIsNarrow(septets[k]);
    } else {
      ExtensionIsNarrow(Find(septets[k + 1], EXTENSION_CODES).value);
    }
  }

  lemma ZeroIsAt()
    ensures BASIC[0] == '@' && BASIC[3] == '\U{A5}' && BASIC[32] == ' '
  {
  }

  /** The first two characters that are decoded are at signs. */
  lemma BeginsWithAt(message: string)
    requires IsReflected(message) && message != ""
    ensures message[0] == '@'
    ensures |Unpack(Ucs2Octets(message))| >= 2
    ensures Unpack(Ucs2Octets(message))[0] == Unpack(Ucs2Octets(message))[1] == 0
  {
    var octets := Ucs2Octets(message);
    var septets := Unpack(octets);
    UnpackedAtLeast(octets, 2);
    FirstBegins(septets);
    CharacterOf(septets, 0, message[0]);
    NarrowOrEuroHigh(message[0]);
    FirstSeptet(octets);
    ZeroIsAt();
    SecondSeptet(octets);
  }

  lemma NarrowOrEuroHigh(c: char)
    requires IsNarrow(c) || c == EURO
    ensures High(c) == 0 || High(c) == 3 || High(c) == 32
    ensures c == '@' || c == '\U{A5}' || c == ' ' ==> High(c) == 0
  {
  }

  lemma StartsEarlier(septets: seq<nat>, i: nat)
    requires DecodeSeptets(septets).Some? && 2 <= i < |DecodeSeptets(septets).value|
    requires |septets| >= 2 && septets[0] == septets[1] == 0
    ensures StartOf(septets, i) <= 2 * i - 2
  {
    FirstBegins(septets);
    FirstBegins(septets[1..]);
    StartIsEarly(septets[1..][1..], i - 2);
  }

  lemma SeptetSlice(octets: seq<nat>, k: nat)
    requires k < |Unpack(octets)|
    ensures 7 * k + 7 <= |Stream(octets, 8)|
    ensures Stream(octets, 8)[7 * k..7 * k + 7] == ToBits(Unpack(octets)[k], 7)
  {
    GroupAt(Stream(octets, 8), 7, k);
    ToFromBits(Stream(octets, 8)[7 * k..7 * k + 7]);
  }

  lemma TwoSlices(bits: seq<bit>, at: nat)
    requires at + 14 <= |bits|
    ensures bits[at..at + 14] == bits[at..at + 7] + bits[at + 7..at + 14]
  {
  }

  /** Where an escaped euro sign lies in the octets. */
  lemma EuroIsThere(octets: seq<nat>, k: nat)
    requires k + 1 < |Unpack(octets)| && Unpack(octets)[k] == ESCAPE && Unpack(octets)[k + 1] == EURO_CODE
    ensures 7 * k + 14 <= |Stream(octets, 8)| && Stream(octets, 8)[7 * k..7 * k + 14] == EURO_BITS
  {
    SeptetSlice(octets, k);
    SeptetSlice(octets, k + 1);
    TwoSlices(Stream(octets, 8), 7 * k);
    EuroBits();
  }

  lemma NarrowIsHigh(message: string, a: nat)
    requires a < |message| && IsNarrow(message[a])
    ensures IsHighOf(Stream(Ucs2Octets(message), 8), a)
  {
    OctetsOf(message, a);
    NarrowHigh(message[a]);
    HighBits(Ucs2Octets(message), a);
  }

  lemma NoEuroWithin(message: string, i: nat, k: nat)
    requires i <= |message| && IsNarrowText(message[..i]) && k + 2 <= 2 * i
    requires k + 1 < |Unpack(Ucs2Octets(message))|
    ensures var septets := Unpack(Ucs2Octets(message)); !(septets[k] == ESCAPE && septets[k + 1] == EURO_CODE)
  {
    var octets := Ucs2Octets(message);
    StreamLength(octets, 8);
    forall a | 0 <= a < i ensures IsHighOf(Stream(octets, 8), a) {
      assert message[..i][a] == message[a];
      NarrowIsHigh(message, a);
    }
    NoEuroBits(Stream(octets, 8), 7 * k, i);
    if Unpack(octets)[k] == ESCAPE && Unpack(octets)[k + 1] == EURO_CODE {
      EuroIsThere(octets, k);
    }
  }

  /** Behind narrow characters no euro sign is decoded: its bits would end before the character itself. */
  lemma NotEuro(message: string, i: nat)
    requires IsReflected(message) && i < |message| && IsNarrowText(message[..i])
    ensures IsNarrow(message[i])
  {
    var septets := Unpack(Ucs2Octets(message));
    var k := StartOf(septets, i);
    BeginsWithAt(message);
    CharacterBegins(septets, i);
    CharacterOf(septets, k, message[i]);
    if i >= 2 && k + 1 < |septets| {
      StartsEarlier(septets, i);
      NoEuroWithin(message, i, k);
    }
  }

  lemma OneMoreNarrow(message: string, i: nat)
    requires i < |message| && IsNarrowText(message[..i]) && IsNarrow(message[i])
    ensures IsNarrowText(message[..i + 1])
  {
    assert message[..i + 1] == message[..i] + [message[i]];
  }

  lemma {:induction false} AllNarrow(message: string, i: nat)
    requires IsReflected(message) && i <= |message|
    ensures IsNarrowText(message[..i])
  {
    if i > 0 {
      AllNarrow(message, i - 1);
      NotEuro(message, i - 1);
      OneMoreNarrow(message, i - 1);
    }
  }

  lemma {:induction false} NarrowBytes(message: string)
    requires IsNarrowText(message)
    ensures Bytes(message) <= 2 * |message|
  {
    if message != "" {
      NarrowHigh(message[0]);
      NarrowBytes(message[1..]);
    }
  }

  lemma {:induction false} SeptetsAtMost(septets: seq<nat>)
    requires DecodeSeptets(septets).Some?
    ensures |septets| <= 2 * |DecodeSeptets(septets).value|
    decreases |septets|
  {
    if septets != [] {
      FirstBegins(septets);
      SeptetsAtMost(Tail(septets));
    }
  }

  /** The decoded text is longer than the message. */
  lemma DecodedIsLonger(message: string)
    requires IsReflected(message) && message != ""
    ensures |Decoded(message)| > |message|
  {
    var septets := Unpack(Ucs2Octets(message));
    BeginsWithAt(message);
    FirstBegins(septets);
    FirstBegins(septets[1..]);
    SeptetsAtMost(septets[1..][1..]);
    UnpackedAtLeast(Ucs2Octets(message), 2 * |message|);
  }

  lemma NarrowBehindAt(message: string)
    requires message != "" && message[0] == '@' && IsNarrowText(message)
    ensures Bytes(message) < 2 * |message|
  {
    assert IsNarrowText(message[1..]);
    NarrowBytes(message[1..]);
  }

  lemma FirstIsAt(message: string)
    requires IsReflected(message) && message != ""
    ensures message[0] == '@'
  {
    BeginsWithAt(message);
  }

  lemma MessageIsNarrow(message: string)
    requires IsReflected(message)
    ensures IsNarrowText(message)
  {
    AllNarrow(message, |message|);
    Whole(message);
  }

  /** The message is fewer bytes than octets. */
  lemma MessageIsSmaller(message: string)
    requires IsReflected(message) && message != ""
    ensures Bytes(message) < 2 * |message|
  {
    FirstIsAt(message);
    MessageIsNarrow(message);
    NarrowBehindAt(message);
  }

  lemma Ucs2IsRead(d: Deliver)
    requires IsUcs2Deliver(d)
    ensures var text := DecodeSeptets(Unpack(Ucs2Octets(d.message)));
            ReadPdu(Ucs2Text(d)) == Done(Sms(ReadNumber(d.envelope), d.message))
            <==> text.Some? && Truncate(text.value, 2 * |d.message|) == Done(d.message)
  {
    CodingIsIgnored(d.envelope, 2 * |d.message|, Ucs2Octets(d.message));
    OctetsFit(d.message);
    Hex.DecodeEncode(Ucs2Octets(d.message));
  }

  /** No UCS2 message but the empty one is received as it was sent. */
  lemma Ucs2IsNotReceived(d: Deliver)
    requires IsUcs2Deliver(d)
    ensures ReadPdu(Ucs2Text(d)) == Done(Sms(ReadNumber(d.envelope), d.message)) <==> d.message == ""
  {
    Ucs2IsRead(d);
    var text := DecodeSeptets(Unpack(Ucs2Octets(d.message)));
    if d.message != "" && text.Some? && Truncate(text.value, 2 * |d.message|) == Done(d.message) {
      TruncateIsPrefix(text.value, 2 * |d.message|);
      DecodedIsLonger(d.message);
      MessageIsSmaller(d.message);
    }
  }

  // ---------- A message that panics ----------

  lemma LetterOctetBits()
    ensures ToBits(0, 8) == [0, 0, 0, 0, 0, 0, 0, 0] && ToBits(0x42, 8) == [0, 1, 0, 0, 0, 0, 1, 0]
  {
  }

  lemma LetterSeptetBits()
    ensures ToBits(0, 7) == [0, 0, 0, 0, 0, 0, 0] && ToBits(4, 7) == [0, 0, 1, 0, 0, 0, 0]
  {
  }

  lemma SameBits()
    ensures [0, 0, 0, 0, 0, 0, 0, 0] + [0, 1, 0, 0, 0, 0, 1, 0]
         == [0, 0, 0, 0, 0, 0, 0] + [0, 0, 1, 0, 0, 0, 0] + [1, 0]
  {
  }

  lemma OneValue(a: nat, width: nat)
    ensures Stream([a], width) == ToBits(a, width)
  {
    assert [a][1..] == [];
    Empty(ToBits(a, width));
  }

  lemma TwoValues(a: nat, b: nat, width: nat)
    ensures Stream([a, b], width) == ToBits(a, width) + ToBits(b, width)
  {
    assert [a, b][1..] == [b];
    OneValue(b, width);
  }

  lemma LetterBits()
    ensures Stream([0x00, 0x42], 8) == Stream([0, 4], 7) + [1, 0]
  {
    TwoValues(0x00, 0x42, 8);
    TwoValues(0, 4, 7);
    LetterOctetBits();
    LetterSeptetBits();
    SameBits();
  }

  lemma LetterSeptets()
    ensures Unpack([0x00, 0x42]) == [0, 4]
  {
    LetterBits();
    assert Power2(7) == 128;
    GroupOfStream([0, 4], [1, 0], 7);
    Empty([0, 4]);
  }

  lemma OneBasic(code: nat, rest: seq<nat>)
    requires code < |BASIC| && code != ESCAPE && DecodeSeptets(rest).Some?
    ensures DecodeSeptets([code] + rest) == Some([BASIC[code]] + DecodeSeptets(rest).value)
  {
    AlphabetSize();
    assert ([code] + rest)[1..] == rest;
  }

  lemma LetterText()
    ensures DecodeSeptets([0, 4]) == Some(['@', '\U{E8}'])
  {
    assert BASIC[0] == '@' && BASIC[4] == '\U{E8}';
    OneBasic(4, []);
    OneBasic(0, [4]);
    assert [4] + [] == [4] && [0] + [4] == [0, 4];
    assert ['\U{E8}'] + "" == ['\U{E8}'] && ['@'] + ['\U{E8}'] == ['@', '\U{E8}'];
  }

  lemma LetterIsCut()
    ensures DataCut([0x00, 0x42], 2)
  {
    LetterSeptets();
    LetterText();
    var text := ['@', '\U{E8}'];
    assert text[..1] == ['@'] && ['@'][1..] == "";
    assert IsCutAt(text, 2, 1);
  }

  lemma LetterOctets(message: string)
    requires |message| == 1 && message[0] == 'B'
    ensures Ucs2Octets(message) == [0x00, 0x42]
  {
  }

  /** A UCS2 message panics exactly if its octets, read as septets, are cut at their number. */
  lemma Ucs2Panics(d: Deliver)
    requires IsUcs2Deliver(d)
    ensures ReadPdu(Ucs2Text(d)) == Panicked <==> DataCut(Ucs2Octets(d.message), 2 * |d.message|)
  {
    OctetsFit(d.message);
    DeliveryPanics(d.envelope, 2 * |d.message|, Ucs2Octets(d.message));
  }

  /** The message "B" is one: it is read as an at sign and an accented letter, whose bytes are cut apart. */
  lemma LetterBPanics(d: Deliver)
    requires IsUcs2Deliver(d) && d.message == "B"
    ensures ReadPdu(Ucs2Text(d)) == Panicked
  {
    LetterOctets(d.message);
    LetterIsCut();
    Ucs2Panics(d);
  }
}
