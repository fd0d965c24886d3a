/**
  The serial port of the modem: `at_transaction` and the dialogue of `send_sms`, over the bytes that the
  modem delivers in whatever portions.
 */
module Modem {
  import opened Wrappers
  import opened Alphabet
  import opened Pdu
  import opened Septets
  import opened Sequences
  import opened Text
  import opened Utf8

  datatype IoError = IoFailure

  const RESPONSE_SIZE: nat := 128

  /** `str::contains` of a text that is given by its bytes. */
  predicate Contains(bytes: seq<nat>, part: string) {
    exists i :: 0 <= i <= |bytes| && Octets(part) <= bytes[i..]
  }

  function CmgsCommand(pdu: string): string
    requires Bytes(pdu) >= 2
  {
    "AT+CMGS=" + Decimal(CmgsLength(pdu)) + "\r"
  }

  // ---------- What a transaction comes to ----------

  type Portions = seq<seq<nat>>

  /** What one read delivers of the portions that arrive, and what it leaves. */
  datatype Reading = Reading(bytes: seq<nat>, rest: Portions)

  /** A read takes the next portion, or as much of it as its buffer holds; without one it fails. */
  function NextRead(arrivals: Portions, size: nat): (r: Option<Reading>) {
    if arrivals == [] then None
    else if |arrivals[0]| <= size then Some(Reading(arrivals[0], arrivals[1..]))
    else Some(Reading(arrivals[0][..size], [arrivals[0][size..]] + arrivals[1..]))
  }

  /** What is left of the portions behind so many bytes. */
  function AfterEcho(arrivals: Portions, size: nat): (rest: Option<Portions>)
    decreases |arrivals|
  {
    if size == 0 then Some(arrivals)
    else if arrivals == [] then None
    else if |arrivals[0]| <= size then AfterEcho(arrivals[1..], size - |arrivals[0]|)
    else Some([arrivals[0][size..]] + arrivals[1..])
  }

  datatype Transaction = Transaction(response: Result<seq<nat>, IoError>, rest: Portions)

  /** One read of the response, which has to be a text. */
  function Answer(arrivals: Portions): Transaction {
    match NextRead(arrivals, RESPONSE_SIZE)
    case None => Transaction(Err(IoFailure), [])
    case Some(r) => Transaction(if IsUtf8(r.bytes) then Ok(r.bytes) else Err(IoFailure), r.rest)
  }

  function Transacted(arrivals: Portions, command: string): Transaction {
    match AfterEcho(arrivals, Bytes(command))
    case None => Transaction(Err(IoFailure), [])
    case Some(rest) => Answer(rest)
  }

  /** However they arrive, exactly so many bytes are read away, whenever there are so many. */
  lemma {:induction false} EchoIsExact(arrivals: Portions, size: nat)
    ensures AfterEcho(arrivals, size).Some? <==> size <= |Joined(arrivals)|
    ensures size <= |Joined(arrivals)| ==> Joined(AfterEcho(arrivals, size).value) == Joined(arrivals)[size..]
    decreases |arrivals|
  {
    if size > 0 && arrivals != [] {
      var first, later := arrivals[0], Joined(arrivals[1..]);
      if |first| <= size {
        EchoIsExact(arrivals[1..], size - |first|);
        if size <= |first + later| {
          DropFirst(first, later, size);
        }
      } else {
        assert (first + later)[size..] == first[size..] + later;
        assert ([first[size..]] + arrivals[1..])[1..] == arrivals[1..];
      }
    }
  }

  lemma DropFirst(a: seq<nat>, b: seq<nat>, size: nat)
    requires |a| <= size <= |a + b|
    ensures (a + b)[size..] == b[size - |a|..]
  {
  }

  /** Behind an echo in non-empty portions, the next portion is the response. */
  lemma {:induction false} AfterWholeEcho(echo: Portions, later: Portions, size: nat)
    requires |Joined(echo)| == size && forall i :: 0 <= i < |echo| ==> echo[i] != []
    ensures AfterEcho(echo + later, size) == Some(later)
    decreases |echo|
  {
    if echo == [] {
      Empty(later);
    } else {
      AppendStep(echo, later);
      AfterWholeEcho(echo[1..], later, size - |echo[0]|);
    }
  }

  /** What `send_sms` comes to, for the portions that the modem delivers meanwhile. */
  function Dialogue(arrivals: Portions, sms: Sms, fill: Fill): (r: Outcome<(), SmsError>) {
    match ComposeSubmit(sms, fill)
    case Panicked => Panicked
    case Failed(_) => Failed(SendingError)
    case Done(pdu) =>
      ComposedLength(sms, fill);
      var prompt := Transacted(arrivals, CmgsCommand(pdu));
      if prompt.response.Err? || !Contains(prompt.response.value, ">") then Failed(SendingError)
      else
        var confirmation := Transacted(prompt.rest, pdu);
        if confirmation.response.Err? || !Contains(confirmation.response.value, "OK") then Failed(SendingError)
        else Done(())
  }

  /** What `send_sms` writes meanwhile. */
  function Written(arrivals: Portions, sms: Sms, fill: Fill): (bytes: seq<nat>) {
    match ComposeSubmit(sms, fill)
    case Panicked => []
    case Failed(_) => []
    case Done(pdu) =>
      ComposedLength(sms, fill);
      var prompt := Transacted(arrivals, CmgsCommand(pdu)).response;
      Octets(CmgsCommand(pdu)) + if prompt.Ok? && Contains(prompt.value, ">") then Octets(pdu) else []
  }

  lemma InTheMiddle(before: seq<nat>, part: seq<nat>, after: seq<nat>)
    ensures part <= (before + part + after)[|before|..]
  {
    assert (before + part + after)[|before|..] == part + after;
  }

  lemma ContainsPart(before: string, part: string, after: string)
    ensures Contains(Octets(before + part + after), part)
  {
    OctetsAppend(before + part, after);
    OctetsAppend(before, part);
    InTheMiddle(Octets(before), Octets(part), Octets(after));
  }

  /** The bytes of a command, in non-empty portions. */
  predicate IsEcho(echo: Portions, command: string) {
    |Joined(echo)| == Bytes(command) && forall i :: 0 <= i < |echo| ==> echo[i] != []
  }

  /** A text contains another. */
  ghost predicate HasPart(s: string, part: string) {
    exists i :: 0 <= i <= |s| && part <= s[i..]
  }

  predicate IsAscii(s: string) {
    forall i :: 0 <= i < |s| ==> s[i] < '\U{80}'
  }

  lemma {:induction false} AsciiPrefix(part: string, s: string)
    requires IsAscii(part) && Octets(part) <= Octets(s)
    ensures part <= s
  {
    if part != "" {
      assert s != "";
      assert Octets(part)[0] == Octets(s)[0];
      assert Octets(part)[1..] == Octets(part[1..]) && Octets(s)[1..] == Octets(s[1..]);
      AsciiPrefix(part[1..], s[1..]);
      HeadTail(part);
      HeadTail(s);
    }
  }

  lemma LaterOctets(c: char, rest: seq<nat>, i: nat)
    requires 0 < i < CharBytes(c)
    ensures (CharOctets(c) + rest)[i] >= 0x80
  {
  }

  lemma ShorterSuffix(a: seq<nat>, b: seq<nat>, i: nat)
    requires |a| <= i <= |a| + |b|
    ensures (a + b)[i..] == b[i - |a|..]
  {
  }

  /** Bytes that spell an ASCII text lie where its characters do. */
  lemma {:induction false} PartIsThere(s: string, part: string, i: nat)
    requires IsAscii(part) && part != "" && i <= Bytes(s) && Octets(part) <= Octets(s)[i..]
    ensures HasPart(s, part)
    decreases |s|
  {
    if i == 0 {
      assert Octets(s)[0..] == Octets(s) && s[0..] == s;
      AsciiPrefix(part, s);
    } else {
      var first, rest := CharOctets(s[0]), Octets(s[1..]);
      assert Octets(part)[0] == Octets(s)[i] < 0x80;
      if i < |first| {
        LaterOctets(s[0], rest, i);
      } else {
        ShorterSuffix(first, rest, i);
        PartIsThere(s[1..], part, i - |first|);
        var k :| 0 <= k <= |s[1..]| && part <= s[1..][k..];
        assert s[k + 1..] == s[1..][k..];
      }
    }
  }

  /** Looking for an ASCII text in the bytes of a text is looking for it in the text. */
  lemma ContainsExactly(s: string, part: string)
    requires IsAscii(part) && part != ""
    ensures Contains(Octets(s), part) <==> HasPart(s, part)
  {
    if Contains(Octets(s), part) {
      var i: nat :| 0 <= i <= |Octets(s)| && Octets(part) <= Octets(s)[i..];
      PartIsThere(s, part, i);
    }
    if HasPart(s, part) {
      var i :| 0 <= i <= |s| && part <= s[i..];
      assert s == s[..i] + part + s[i + |part|..];
      ContainsPart(s[..i], part, s[i + |part|..]);
    }
  }

  /**
    Behind an echo, the next portion is the response, or its first 128 bytes, if those are a text; any
    other is an error.
   */
  lemma AnswerIsExact(command: string, echo: Portions, portion: seq<nat>, later: Portions)
    requires IsEcho(echo, command)
    ensures var read := if |portion| <= 128 then portion else portion[..128];
            Transacted(echo + ([portion] + later), command).response
            == if IsUtf8(read) then Ok(read) else Err(IoFailure)
    ensures Transacted(echo + ([portion] + later), command).rest
         == if |portion| <= 128 then later else [portion[128..]] + later
    ensures Transacted(echo, command) == Transaction(Err(IoFailure), [])
  {
    AfterWholeEcho(echo, [portion] + later, Bytes(command));
    AfterWholeEcho(echo, [], Bytes(command));
    Empty(echo);
    assert ([portion] + later)[1..] == later;
  }

  /** A text that fits the buffer is the response, whatever it says. */
  lemma TextIsAnswered(command: string, echo: Portions, response: string, later: Portions)
    requires IsEcho(echo, command)
    requires Bytes(response) <= 128
    ensures Transacted(echo + ([Octets(response)] + later), command) == Transaction(Ok(Octets(response)), later)
  {
    AnswerIsExact(command, echo, Octets(response), later);
    OctetsAreUtf8(response);
  }

  /** The command and the PDU of a message, and what the modem delivers meanwhile. */
  function Exchange(echo: Portions, prompt: string, echo': Portions, confirmation: string): Portions {
    echo + ([Octets(prompt)] + (echo' + ([Octets(confirmation)] + [])))
  }

  lemma OneCharacter(s: string, c: char)
    ensures HasPart(s, [c]) <==> c in s
  {
    if c in s {
      var i :| 0 <= i < |s| && s[i] == c;
      assert [c] <= s[i..];
    }
    if HasPart(s, [c]) {
      var i :| 0 <= i <= |s| && [c] <= s[i..];
      assert s[i] == c;
    }
  }

  /** What both functions make of two responses. */
  lemma ResponsesDecide(arrivals: Portions, sms: Sms, fill: Fill, prompt: seq<nat>, rest: Portions,
                        confirmation: seq<nat>)
    requires ComposeSubmit(sms, fill).Done? && Bytes(ComposeSubmit(sms, fill).value) >= 2
    requires Transacted(arrivals, CmgsCommand(ComposeSubmit(sms, fill).value)) == Transaction(Ok(prompt), rest)
    requires Transacted(rest, ComposeSubmit(sms, fill).value).response == Ok(confirmation)
    ensures Dialogue(arrivals, sms, fill)
         == if Contains(prompt, ">") && Contains(confirmation, "OK") then Done(()) else Failed(SendingError)
    ensures Written(arrivals, sms, fill)
         == Octets(CmgsCommand(ComposeSubmit(sms, fill).value))
          + if Contains(prompt, ">") then Octets(ComposeSubmit(sms, fill).value) else []
  {
  }

  lemma Marks(prompt: string, confirmation: string)
    ensures Contains(Octets(prompt), ">") <==> '>' in prompt
    ensures Contains(Octets(confirmation), "OK") <==> HasPart(confirmation, "OK")
  {
    ContainsExactly(prompt, ">");
    OneCharacter(prompt, '>');
    ContainsExactly(confirmation, "OK");
  }

  lemma SendingOfTexts(sms: Sms, fill: Fill, echo: Portions, prompt: string, echo': Portions, confirmation: string)
    requires ComposeSubmit(sms, fill).Done? && Bytes(ComposeSubmit(sms, fill).value) >= 2
    requires IsEcho(echo, CmgsCommand(ComposeSubmit(sms, fill).value))
    requires IsEcho(echo', ComposeSubmit(sms, fill).value)
    requires Bytes(prompt) <= 128 && Bytes(confirmation) <= 128
    ensures Dialogue(Exchange(echo, prompt, echo', confirmation), sms, fill)
         == if '>' in prompt && HasPart(confirmation, "OK") then Done(()) else Failed(SendingError)
    ensures Written(Exchange(echo, prompt, echo', confirmation), sms, fill)
         == Octets(CmgsCommand(ComposeSubmit(sms, fill).value))
          + if '>' in prompt then Octets(ComposeSubmit(sms, fill).value) else []
  {
    var pdu := ComposeSubmit(sms, fill).value;
    var behind := echo' + ([Octets(confirmation)] + []);
    TextIsAnswered(CmgsCommand(pdu), echo, prompt, behind);
    TextIsAnswered(pdu, echo', confirmation, []);
    ResponsesDecide(Exchange(echo, prompt, echo', confirmation), sms, fill, Octets(prompt), behind,
                    Octets(confirmation));
    Marks(prompt, confirmation);
  }

  /** The command text, for a PDU of any length. */
  predicate IsCmgs(command: string, pdu: string) {
    Bytes(pdu) >= 2 && command == "AT+CMGS=" + Decimal((Bytes(pdu) - 2) / 2) + "\r"
  }

  /**
    Of every message that can be composed: when the modem echoes the command and the PDU, in whatever
    portions, and answers each with a text in one portion, the sending succeeds exactly if the first
    text has a prompt and the second says OK. The PDU is written exactly behind a prompt.
   */
  lemma SendingIsExact(sms: Sms, fill: Fill, command: string, pdu: string,
                       echo: Portions, prompt: string, echo': Portions, confirmation: string)
    requires ComposeSubmit(sms, fill) == Done(pdu) && IsCmgs(command, pdu)
    requires IsEcho(echo, command) && IsEcho(echo', pdu)
    requires Bytes(prompt) <= 128 && Bytes(confirmation) <= 128
    ensures Dialogue(Exchange(echo, prompt, echo', confirmation), sms, fill)
         == if '>' in prompt && HasPart(confirmation, "OK") then Done(()) else Failed(SendingError)
    ensures Written(Exchange(echo, prompt, echo', confirmation), sms, fill)
         == Octets(command) + if '>' in prompt then Octets(pdu) else []
  {
    assert command == CmgsCommand(pdu);
    SendingOfTexts(sms, fill, echo, prompt, echo', confirmation);
  }

  /** Every message that is composed has such a command. */
  lemma EveryCommandIsCmgs(sms: Sms, fill: Fill)
    requires ComposeSubmit(sms, fill).Done?
    ensures Bytes(ComposeSubmit(sms, fill).value) >= 2
    ensures IsCmgs(CmgsCommand(ComposeSubmit(sms, fill).value), ComposeSubmit(sms, fill).value)
  {
    ComposedLength(sms, fill);
  }

  class SerialPort {
    /** The portions in which the modem's bytes have still to arrive; without one a read fails. */
    var arrivals: Portions
    /** All bytes written to the modem. */
    var output: seq<nat>
    const writable: bool

    constructor (arrivals: Portions, writable: bool)
      ensures this.arrivals == arrivals && this.writable == writable && output == []
    {
      this.arrivals, this.writable, output := arrivals, writable, [];
    }

    method Read(size: nat) returns (r: Result<seq<nat>, IoError>)
      modifies this`arrivals
      ensures match NextRead(old(arrivals), size)
              case None => r == Err(IoFailure) && arrivals == old(arrivals)
              case Some(reading) => r == Ok(reading.bytes) && arrivals == reading.rest
    {
      if arrivals == [] {
        return Err(IoFailure);
      }
      var portion := arrivals[0];
      if |portion| <= size {
        arrivals := arrivals[1..];
        return Ok(portion);
      }
      arrivals := [portion[size..]] + arrivals[1..];
      return Ok(portion[..size]);
    }

    method WriteAll(data: seq<nat>) returns (r: Result<(), IoError>)
      modifies this`output
      ensures r.Ok? <==> writable
      ensures output == if writable then old(output) + data else old(output)
    {
      if !writable {
        return Err(IoFailure);
      }
      output := output + data;
      return Ok(());
    }

    /** Reads away exactly so many bytes, however they arrive. */
    method ReadEcho(size: nat) returns (ok: bool)
      requires size > 0
      modifies this`arrivals
      ensures ok <==> AfterEcho(old(arrivals), size).Some?
      ensures arrivals == if ok then AfterEcho(old(arrivals), size).value else []
    {
      var buffer := size;
      while true
        invariant 0 < buffer
        invariant AfterEcho(arrivals, buffer) == AfterEcho(old(arrivals), size)
        decreases |arrivals|
      {
        var echo := Read(buffer);
        if echo.Err? {
          return false;
        }
        buffer := buffer - |echo.value|;
        if buffer == 0 {
          return true;
        }
      }
    }

    /**
      Writes a command, reads away exactly as many bytes as it has, and returns what one more read
      delivers, if that is a text: the response starts right behind the echo.
     */
    method AtTransaction(command: string) returns (r: Result<seq<nat>, IoError>)
      modifies this
      ensures writable || command == "" ==>
                && r == Transacted(old(arrivals), command).response
                && arrivals == Transacted(old(arrivals), command).rest
                && output == old(output) + Octets(command)
      ensures !writable && command != "" ==> r.Err? && arrivals == old(arrivals) && output == old(output)
    {
      var bytes := Octets(command);
      if bytes != [] {
        var written := WriteAll(bytes);
        if written.Err? {
          return Err(IoFailure);
        }
        var echoed := ReadEcho(|bytes|);
        if !echoed {
          return Err(IoFailure);
        }
      }
      r := Read(RESPONSE_SIZE);
      if r.Ok? && !IsUtf8(r.value) {
        r := Err(IoFailure);
      }
    }

    /**
      Sends one message. A success has written the announced length and the PDU and nothing else;
      a message that cannot be composed is refused or panics before anything is written.
     */
    method SendSms(sms: Sms, fill: Fill) returns (r: Outcome<(), SmsError>)
      modifies this
      ensures writable ==> r == Dialogue(old(arrivals), sms, fill)
                           && output == old(output) + Written(old(arrivals), sms, fill)
      ensures r.Done? ==> ComposeSubmit(sms, fill).Done? && Bytes(ComposeSubmit(sms, fill).value) >= 2
      ensures r.Done? ==> var pdu := ComposeSubmit(sms, fill).value;
                          output == old(output) + Octets(CmgsCommand(pdu)) + Octets(pdu)
      ensures ComposeSubmit(sms, fill).Failed? ==> r.Failed? && output == old(output)
      ensures ComposeSubmit(sms, fill).Panicked? ==> r.Panicked? && output == old(output)
      ensures !writable && ComposeSubmit(sms, fill).Done? ==> r.Failed? && output == old(output)
    {
      match ComposeSubmit(sms, fill) {
        case Panicked => return Panicked;
        case Failed(_) => return Failed(SendingError);
        case Done(pdu) =>
          ComposedLength(sms, fill);
          Empty(Octets(CmgsCommand(pdu)));
          Associative(output, Octets(CmgsCommand(pdu)), Octets(pdu));
          var prompt := AtTransaction(CmgsCommand(pdu));
          if prompt.Err? || !Contains(prompt.value, ">") {
            return Failed(SendingError);
          }
          var confirmation := AtTransaction(pdu);
          if confirmation.Err? || !Contains(confirmation.value, "OK") {
            return Failed(SendingError);
          }
          return Done(());
      }
    }
  }
}
