/** Finding the PDU in what the modem sends: the notification pattern and the loop of `wait_sms`. */
module Indication {
  import opened Wrappers
  import opened Alphabet
  import opened Delivery
  import opened Messages
  import opened Pdu
  import opened Septets
  import opened Sequences
  import opened Text
  import Hex

  const INDICATION: string := "+CMT:"

  /** The first line feed at or after `from`. */
  function LineFeed(s: string, from: nat): (at: Option<nat>)
    requires from <= |s|
    ensures at.Some? ==> from <= at.value < |s| && s[at.value] == '\n' && '\n' !in s[from..at.value]
    ensures at.None? ==> '\n' !in s[from..]
    decreases |s| - from
  {
    if from == |s| then None
    else if s[from] == '\n' then Some(from)
    else
      var later := LineFeed(s, from + 1);
      assert s[from..] == [s[from]] + s[from + 1..];
      assert later.Some? ==> s[from..later.value] == [s[from]] + s[from + 1..later.value];
      later
  }

  /** A second line from `from` on, not empty, without the carriage return before its line feed. */
  function SecondLine(s: string, from: nat): (line: Option<string>)
    requires from <= |s|
  {
    match LineFeed(s, from)
    case None => None
    case Some(k) => if k < from + 2 || s[k - 1] != '\r' then None else Some(s[from..k - 1])
  }

  /**
    The capture of `\+CMT:.*\r\n(.+)\r\n` at position `i`. As `.` matches everything but a line feed,
    both lines end at the first one, which a carriage return has to precede.
   */
  function CaptureAt(s: string, i: nat): (pdu: Option<string>)
    requires i <= |s|
  {
    if !(INDICATION <= s[i..]) then None
    else match LineFeed(s, i + 5)
      case None => None
      case Some(j) => if j == i + 5 || s[j - 1] != '\r' then None else SecondLine(s, j + 1)
  }

  /** The leftmost match at or after position `i`. */
  function CaptureFrom(s: string, i: nat): (pdu: Option<string>)
    requires i <= |s|
    decreases |s| - i
  {
    if CaptureAt(s, i).Some? || i == |s| then CaptureAt(s, i) else CaptureFrom(s, i + 1)
  }

  function Capture(s: string): (pdu: Option<string>) {
    CaptureFrom(s, 0)
  }

  /** What `\+CMT:.*\r\n(.+)\r\n` matches at a position, with its capture. */
  ghost predicate MatchesAt(s: string, i: nat, pdu: string)
    requires i <= |s|
  {
    pdu != "" && '\n' !in pdu
    && exists parameters, rest :: IsMatch(s[i..], parameters, pdu, rest)
  }

  predicate IsMatch(s: string, parameters: string, pdu: string, rest: string) {
    '\n' !in parameters && s == "+CMT:" + parameters + "\r\n" + pdu + "\r\n" + rest
  }

  lemma MatchIsFrame(before: string, parameters: string, pdu: string, rest: string)
    ensures before + ("+CMT:" + parameters + "\r\n" + pdu + "\r\n" + rest) == Frame(before, parameters, pdu, rest)
  {
    Associative("+CMT:" + parameters + "\r\n" + pdu, "\r\n", rest);
    Associative("+CMT:" + parameters + "\r\n", pdu, "\r\n" + rest);
    Associative(pdu, "\r\n", rest);
  }

  lemma ShorterSlice(s: string, from: nat, to: nat, c: char)
    requires from <= to < |s| && c !in s[from..to + 1]
    ensures c !in s[from..to]
  {
    assert s[from..to] == s[from..to + 1][..to - from];
  }

  lemma CapturedMatches(s: string, i: nat)
    requires i <= |s| && CaptureAt(s, i).Some?
    ensures MatchesAt(s, i, CaptureAt(s, i).value)
  {
    var j := LineFeed(s, i + 5).value;
    var k := LineFeed(s, j + 1).value;
    var parameters, pdu, rest := s[i + 5..j - 1], s[j + 1..k - 1], s[k + 1..];
    ShorterSlice(s, i + 5, j - 1, '\n');
    ShorterSlice(s, j + 1, k - 1, '\n');
    FiveParts(s, i, j, k);
    assert IsMatch(s[i..], parameters, pdu, rest);
  }

  lemma FiveParts(s: string, i: nat, j: nat, k: nat)
    requires i + 5 < j && j + 2 < k < |s| && INDICATION <= s[i..]
    requires s[j - 1] == '\r' && s[j] == '\n' && s[k - 1] == '\r' && s[k] == '\n'
    ensures s[i..] == "+CMT:" + s[i + 5..j - 1] + "\r\n" + s[j + 1..k - 1] + "\r\n" + s[k + 1..]
  {
    assert s[i..] == s[i..i + 5] + s[i + 5..j - 1] + s[j - 1..j + 1] + s[j + 1..k - 1] + s[k - 1..k + 1] + s[k + 1..];
    assert s[i..i + 5] == "+CMT:" && s[j - 1..j + 1] == "\r\n" && s[k - 1..k + 1] == "\r\n";
  }

  lemma MatchIsCaptured(s: string, i: nat, pdu: string)
    requires i <= |s| && MatchesAt(s, i, pdu)
    ensures CaptureAt(s, i) == Some(pdu)
  {
    var parameters, rest :| IsMatch(s[i..], parameters, pdu, rest);
    MatchIsFrame(s[..i], parameters, pdu, rest);
    assert s == s[..i] + s[i..];
    CaptureAtFrame(s[..i], parameters, pdu, rest);
  }

  lemma {:induction false} CaptureFromFirst(s: string, i: nat, at: nat)
    requires i <= at <= |s| && CaptureAt(s, at).Some?
    requires forall h: nat :: i <= h < at ==> CaptureAt(s, h).None?
    ensures CaptureFrom(s, i) == CaptureAt(s, at)
    decreases at - i
  {
    if i < at {
      CaptureFromFirst(s, i + 1, at);
    }
  }

  lemma {:induction false} CapturedSomewhere(s: string, i: nat) returns (at: nat)
    requires i <= |s| && CaptureFrom(s, i).Some?
    ensures i <= at <= |s| && CaptureAt(s, at) == CaptureFrom(s, i)
    ensures forall h: nat :: i <= h < at ==> CaptureAt(s, h).None?
    decreases |s| - i
  {
    at := i;
    if CaptureAt(s, i).None? {
      at := CapturedSomewhere(s, i + 1);
    }
  }

  /** The leftmost match of the notification pattern in a text, with its capture. */
  ghost predicate IsLeftmost(s: string, at: nat, pdu: string) {
    && at <= |s| && MatchesAt(s, at, pdu)
    && forall h: nat, other :: h < at ==> !MatchesAt(s, h, other)
  }

  /** What is captured is exactly the capture of the leftmost match. */
  lemma CaptureIsExact(s: string, pdu: string)
    ensures Capture(s) == Some(pdu) <==> exists at :: IsLeftmost(s, at, pdu)
  {
    if Capture(s) == Some(pdu) {
      var at := CapturedSomewhere(s, 0);
      CapturedMatches(s, at);
      forall h: nat, other | h < at ensures !MatchesAt(s, h, other) {
        if MatchesAt(s, h, other) {
          MatchIsCaptured(s, h, other);
        }
      }
      assert IsLeftmost(s, at, pdu);
    }
    if at :| IsLeftmost(s, at, pdu) {
      MatchIsCaptured(s, at, pdu);
      forall h: nat | h < at ensures CaptureAt(s, h).None? {
        if CaptureAt(s, h).Some? {
          CapturedMatches(s, h);
        }
      }
      CaptureFromFirst(s, 0, at);
    }
  }

  datatype Wait = Received(sms: Sms) | ReadFailed | WaitPanicked | StillWaiting

  function Parsed(pdu: string): (w: Wait) {
    match ReadPdu(pdu)
    case Done(sms) => Received(sms)
    case Failed(_) => ReadFailed
    case Panicked => WaitPanicked
  }

  /** The reads are taken one by one; nothing of one read is kept for the next. */
  function WaitFor(responses: seq<Result<string, SmsError>>): (w: Wait) {
    if responses == [] then StillWaiting
    else match responses[0]
      case Err(_) => ReadFailed
      case Ok(response) =>
        match Capture(response)
        case Some(pdu) => Parsed(pdu)
        case None => WaitFor(responses[1..])
  }

  /** The waits that some reads end, one after the other; a panic is the last. */
  function Waits(responses: seq<Result<string, SmsError>>): (waits: seq<Wait>) {
    if responses == [] then []
    else match responses[0]
      case Err(_) => [ReadFailed] + Waits(responses[1..])
      case Ok(response) =>
        match Capture(response)
        case None => Waits(responses[1..])
        case Some(pdu) =>
          if Parsed(pdu) == WaitPanicked then [WaitPanicked] else [Parsed(pdu)] + Waits(responses[1..])
  }

  /** The first of them is the one that the reads end first. */
  lemma {:induction false} FirstWait(responses: seq<Result<string, SmsError>>)
    ensures WaitFor(responses) == if Waits(responses) == [] then StillWaiting else Waits(responses)[0]
  {
    if responses != [] && responses[0].Ok? && Capture(responses[0].value).None? {
      FirstWait(responses[1..]);
    }
  }

  /** What one read does to a wait, if anything. */
  predicate IsOutcome(read: Result<string, SmsError>, w: Wait) {
    match read
    case Err(_) => w == ReadFailed
    case Ok(response) =>
      var pdu := Capture(response);
      pdu.Some? && match ReadPdu(pdu.value)
                   case Done(sms) => w == Received(sms)
                   case Failed(_) => w == ReadFailed
                   case Panicked => w == WaitPanicked
  }

  predicate IsSilent(read: Result<string, SmsError>) {
    read.Ok? && Capture(read.value).None?
  }

  /** Each read by itself ends a wait, by its failure or its PDU, or none. */
  lemma OneRead(read: Result<string, SmsError>)
    ensures IsSilent(read) ==> Waits([read]) == []
    ensures !IsSilent(read) ==> |Waits([read])| == 1 && IsOutcome(read, Waits([read])[0])
  {
    assert [read][1..] == [];
    assert Waits([]) == [];
  }

  /** Reads in a row end what each of them ends, up to a panic. */
  lemma {:induction false} WaitsInTurn(earlier: seq<Result<string, SmsError>>, later: seq<Result<string, SmsError>>)
    ensures Waits(earlier + later)
         == if WaitPanicked in Waits(earlier) then Waits(earlier) else Waits(earlier) + Waits(later)
    decreases |earlier|
  {
    if earlier == [] {
      Empty(later);
      Empty(Waits(later));
    } else {
      AppendStep(earlier, later);
      WaitsInTurn(earlier[1..], later);
      if WaitPanicked !in Waits(earlier[1..]) {
        Associative([ReadFailed], Waits(earlier[1..]), Waits(later));
        if earlier[0].Ok? && Capture(earlier[0].value).Some? {
          Associative([Parsed(Capture(earlier[0].value).value)], Waits(earlier[1..]), Waits(later));
        }
      }
    }
  }

  /** A wait is ended by the first read that is not silent, by its failure or by its PDU alone. */
  lemma {:induction false} WaitIsExact(responses: seq<Result<string, SmsError>>, i: nat)
    requires i <= |responses| && forall j :: 0 <= j < i ==> IsSilent(responses[j])
    ensures i == |responses| ==> WaitFor(responses) == StillWaiting
    ensures i < |responses| && !IsSilent(responses[i]) ==> IsOutcome(responses[i], WaitFor(responses))
    decreases i
  {
    if i > 0 {
      assert IsSilent(responses[0]);
      WaitIsExact(responses[1..], i - 1);
    }
  }

  method WaitSms(responses: seq<Result<string, SmsError>>) returns (w: Wait)
    ensures w == WaitFor(responses)
  {
    var n := 0;
    while n < |responses|
      invariant 0 <= n <= |responses|
      invariant WaitFor(responses) == WaitFor(responses[n..])
    {
      assert responses[n..][1..] == responses[n + 1..];
      match responses[n] {
        case Err(_) => return ReadFailed;
        case Ok(response) =>
          if response != "" {
            var pdu := Capture(response);
            if pdu.Some? {
              return Parsed(pdu.value);
            }
          }
      }
      n := n + 1;
    }
    return StillWaiting;
  }

  /** One whole notification: an indication line and the PDU line, after some text without a plus. */
  function Frame(before: string, parameters: string, pdu: string, after: string): string {
    before + (INDICATION + parameters + "\r\n" + (pdu + "\r\n" + after))
  }

  lemma LineFeedIs(s: string, from: nat, line: string)
    requires '\n' !in line
    requires from + |line| < |s| && s[from..from + |line|] == line && s[from + |line|] == '\n'
    ensures LineFeed(s, from) == Some(from + |line|)
  {
  }

  /** The two lines of a frame, each ended by the line feed after its carriage return. */
  lemma FrameLines(before: string, parameters: string, pdu: string, after: string)
    ensures var s, i := Frame(before, parameters, pdu, after), |before|;
            var j := i + 5 + |parameters| + 1;
            var k := j + 1 + |pdu| + 1;
            k < |s| && INDICATION <= s[i..]
            && s[i + 5..j] == parameters + "\r" && s[j] == '\n'
            && s[j + 1..k] == pdu + "\r" && s[k] == '\n'
  {
    var s := Frame(before, parameters, pdu, after);
    var start := before + INDICATION;
    var first, second := parameters + "\r", pdu + "\r";
    assert s[|before|..] == INDICATION + parameters + "\r\n" + (pdu + "\r\n" + after);
    assert s == start + (first + ("\n" + (second + ("\n" + after))));
    Sequences.Middle(start, first, "\n" + (second + ("\n" + after)));
    assert s == (start + first + "\n") + (second + ("\n" + after));
    Sequences.Middle(start + first + "\n", second, "\n" + after);
  }

  lemma LineEndsInReturn(s: string, from: nat, line: string)
    requires from + |line| + 1 <= |s| && s[from..from + |line| + 1] == line + "\r"
    ensures s[from + |line|] == '\r' && s[from..from + |line|] == line
  {
    var all := line + "\r";
    assert s[from + |line|] == s[from..from + |line| + 1][|line|];
    assert s[from..from + |line|] == all[..|line|];
    assert all[..|line|] == line;
  }

  lemma CaptureOfLines(s: string, i: nat, j: nat, k: nat)
    requires i + 5 < j && j + 3 <= k < |s| && INDICATION <= s[i..]
    requires LineFeed(s, i + 5) == Some(j) && s[j - 1] == '\r'
    requires LineFeed(s, j + 1) == Some(k) && s[k - 1] == '\r'
    ensures CaptureAt(s, i) == Some(s[j + 1..k - 1])
  {
    assert SecondLine(s, j + 1) == Some(s[j + 1..k - 1]);
  }

  lemma CaptureOfFrame(s: string, i: nat, parameters: string, pdu: string)
    requires '\n' !in parameters && '\n' !in pdu && pdu != ""
    requires var j := i + 5 + |parameters| + 1;
             var k := j + 1 + |pdu| + 1;
             k < |s| && INDICATION <= s[i..]
             && s[i + 5..j] == parameters + "\r" && s[j] == '\n'
             && s[j + 1..k] == pdu + "\r" && s[k] == '\n'
    ensures CaptureAt(s, i) == Some(pdu)
  {
    var j := i + 5 + |parameters| + 1;
    LineFeedIs(s, i + 5, parameters + "\r");
    LineFeedIs(s, j + 1, pdu + "\r");
    LineEndsInReturn(s, i + 5, parameters);
    LineEndsInReturn(s, j + 1, pdu);
    CaptureOfLines(s, i, j, j + 1 + |pdu| + 1);
  }

  lemma CaptureAtFrame(before: string, parameters: string, pdu: string, after: string)
    requires '\n' !in parameters && '\n' !in pdu && pdu != ""
    ensures CaptureAt(Frame(before, parameters, pdu, after), |before|) == Some(pdu)
  {
    FrameLines(before, parameters, pdu, after);
    CaptureOfFrame(Frame(before, parameters, pdu, after), |before|, parameters, pdu);
  }

  lemma {:induction false} CaptureFromLater(s: string, i: nat, at: nat)
    requires i <= at <= |s|
    requires '+' !in s[i..at]
    requires CaptureAt(s, at).Some?
    ensures CaptureFrom(s, i) == CaptureAt(s, at)
    decreases at - i
  {
    if i < at {
      assert s[i..at][0] == s[i] && s[i + 1..at] == s[i..at][1..];
      assert INDICATION[0] == '+' && !(INDICATION <= s[i..]);
      CaptureFromLater(s, i + 1, at);
    }
  }

  lemma {:induction false} NoiseIsSkipped(noise: seq<Result<string, SmsError>>, rest: seq<Result<string, SmsError>>)
    requires forall i :: 0 <= i < |noise| ==> noise[i].Ok? && Capture(noise[i].value).None?
    ensures WaitFor(noise + rest) == WaitFor(rest)
  {
    if noise == [] {
      assert noise + rest == rest;
    } else {
      NoiseIsSkipped(noise[1..], rest);
      assert (noise + rest)[1..] == noise[1..] + rest;
    }
  }

  lemma {:induction false} HexIsOneLine(octets: seq<nat>)
    ensures '\n' !in Upper(Hex.Encode(octets)) && '+' !in Upper(Hex.Encode(octets))
  {
    if octets != [] {
      HexIsOneLine(octets[1..]);
      Hex.CasedEncode(octets[0], octets[1..]);
      assert octets == [octets[0]] + octets[1..];
      assert '\n' !in Upper(Hex.Octet(octets[0])) && '+' !in Upper(Hex.Octet(octets[0]));
    }
  }

  /** After any reads without one, the first read with a whole notification yields its PDU's reading. */
  lemma NotificationIsParsed(pdu: string, noise: seq<Result<string, SmsError>>, before: string,
                             parameters: string, after: string, rest: seq<Result<string, SmsError>>)
    requires '\n' !in pdu && pdu != ""
    requires forall i :: 0 <= i < |noise| ==> noise[i].Ok? && Capture(noise[i].value).None?
    requires '+' !in before && '\n' !in parameters
    ensures Capture(Frame(before, parameters, pdu, after)) == Some(pdu)
    ensures WaitFor(noise + ([Ok(Frame(before, parameters, pdu, after))] + rest)) == Parsed(pdu)
  {
    var frame := Frame(before, parameters, pdu, after);
    NoiseIsSkipped(noise, [Ok(frame)] + rest);
    CaptureAtFrame(before, parameters, pdu, after);
    assert frame[0..|before|] == before;
    CaptureFromLater(frame, 0, |before|);
  }

  lemma DeliverIsOneLine(v: Envelope, length: nat, data: seq<nat>)
    requires IsEnvelope(v)
    ensures '\n' !in DeliverText(v, length, data) && '+' !in DeliverText(v, length, data)
    ensures DeliverText(v, length, data) != ""
  {
    HexIsOneLine(DeliverOctets(v, length, data));
  }

  /**
    From the modem to the daemon: after any reads without a notification, the first read that holds
    one whole notification of a delivery yields its sender and its message, exactly when the message
    survives decoding, and a panic exactly when it is cut.
   */
  lemma NotificationIsReceived(d: Deliver, fill: Fill, noise: seq<Result<string, SmsError>>, before: string,
                               parameters: string, after: string, rest: seq<Result<string, SmsError>>)
    requires IsDeliver(d)
    requires forall i :: 0 <= i < |noise| ==> noise[i].Ok? && Capture(noise[i].value).None?
    requires '+' !in before && '\n' !in parameters
    ensures var w := WaitFor(noise + ([Ok(Frame(before, parameters, MessageText(d, fill), after))] + rest));
            && (w == Received(Sms(ReadNumber(d.envelope), d.message)) <==> Survives(d.message))
            && (w == WaitPanicked <==> IsCut(d, fill))
  {
    DeliverIsOneLine(d.envelope, Count(d), Pack(EncodeText(d.message).value, fill));
    NotificationIsParsed(MessageText(d, fill), noise, before, parameters, after, rest);
    DeliverIsReceived(d, fill);
    DeliverPanics(d, fill);
  }
}
