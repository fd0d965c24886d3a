/**
  How a notification gets to the daemon: the modem's bytes arrive in reads of bounded size, and only a
  read that holds the whole notification is taken notice of.
 */
module Transmissions {
  import opened Wrappers
  import opened Alphabet
  import opened Arrivals
  import opened Delivery
  import opened Indication
  import opened Modem
  import opened Pdu
  import opened Sequences

  /** A notification, what the modem sends before and after it, and how all of that is cut into reads. */
  datatype Transmission = Transmission(before: string, parameters: string, pdu: string, after: string,
                                       pieces: seq<string>)

  /** The indication line and the PDU line. */
  function Notification(parameters: string, pdu: string): string {
    INDICATION + parameters + "\r\n" + (pdu + "\r\n")
  }

  function Sent(t: Transmission): string {
    Frame(t.before, t.parameters, t.pdu, t.after)
  }

  /** Two lines with one plus sign at their front, and reads of at most the buffer's size. */
  predicate IsTransmission(t: Transmission) {
    && '+' !in t.before && '+' !in t.after
    && '+' !in t.parameters && '\n' !in t.parameters
    && '+' !in t.pdu && '\n' !in t.pdu && t.pdu != ""
    && Joined(t.pieces) == Sent(t)
    && forall i :: 0 <= i < |t.pieces| ==> Bytes(t.pieces[i]) <= RESPONSE_SIZE
  }

  /** Where the notification begins and ends in what is sent. */
  function From(t: Transmission): nat {
    |t.before|
  }

  function To(t: Transmission): nat {
    |t.before| + |Notification(t.parameters, t.pdu)|
  }

  /** Where a read begins. */
  function Offset(t: Transmission, i: nat): nat
    requires i <= |t.pieces|
  {
    |Joined(t.pieces[..i])|
  }

  /** A read that holds the whole notification. */
  predicate IsWhole(t: Transmission, i: nat) {
    i < |t.pieces| && Offset(t, i) <= From(t) && To(t) <= Offset(t, i) + |t.pieces[i]|
  }

  predicate IsHeard(t: Transmission) {
    exists i :: 0 <= i < |t.pieces| && IsWhole(t, i)
  }

  // ---------- One read ----------

  lemma NoCaptureHere(s: string, i: nat)
    requires i < |s| && s[i] != '+'
    ensures CaptureAt(s, i).None?
  {
    assert INDICATION[0] == '+';
  }

  lemma NoCaptureAtEnd(s: string)
    ensures CaptureAt(s, |s|).None?
  {
    assert !(INDICATION <= s[|s|..]);
  }

  lemma {:induction false} NoCaptureFrom(s: string, i: nat)
    requires i <= |s| && '+' !in s[i..]
    ensures CaptureFrom(s, i).None?
    decreases |s| - i
  {
    NoCaptureAtEnd(s);
    if i < |s| {
      assert s[i..][0] == s[i] && s[i + 1..] == s[i..][1..];
      NoCaptureHere(s, i);
      NoCaptureFrom(s, i + 1);
    }
  }

  /** A text with one plus sign captures what it captures there. */
  lemma {:induction false} OnlyCapture(s: string, i: nat, at: nat)
    requires i <= at < |s| && '+' !in s[i..at] && '+' !in s[at + 1..]
    ensures CaptureFrom(s, i) == CaptureAt(s, at)
    decreases at - i
  {
    if i < at {
      assert s[i..at][0] == s[i] && s[i + 1..at] == s[i..at][1..];
      NoCaptureHere(s, i);
      OnlyCapture(s, i + 1, at);
    } else {
      NoCaptureFrom(s, at + 1);
    }
  }

  lemma OneLineFeed(s: string, i: nat, only: nat)
    requires i <= |s|
    requires forall x :: i <= x < |s| && s[x] == '\n' ==> x == only
    ensures CaptureAt(s, i).None?
  {
  }

  /** A whole frame by its parts. */
  lemma FrameParts(before: string, parameters: string, pdu: string, after: string)
    ensures var s, n := Frame(before, parameters, pdu, after), Notification(parameters, pdu);
            s == before + (n + after)
    ensures Notification(parameters, pdu)[..5] == INDICATION
  {
    var lead := INDICATION + parameters + "\r\n";
    assert pdu + "\r\n" + after == (pdu + "\r\n") + after;
    Associative(lead, pdu + "\r\n", after);
  }

  lemma NotificationAt(parameters: string, pdu: string, x: nat)
    requires x < |Notification(parameters, pdu)|
    ensures |Notification(parameters, pdu)| == |parameters| + |pdu| + 9
    ensures Notification(parameters, pdu)[x]
         == if x < 5 then INDICATION[x]
            else if x < |parameters| + 5 then parameters[x - 5]
            else if x == |parameters| + 5 then '\r'
            else if x == |parameters| + 6 then '\n'
            else if x < |parameters| + |pdu| + 7 then pdu[x - |parameters| - 7]
            else if x == |parameters| + |pdu| + 7 then '\r'
            else '\n'
  {
  }

  /** Where a notification's line feeds and its plus sign are. */
  lemma NotificationMarks(parameters: string, pdu: string, x: nat)
    requires '\n' !in parameters && '\n' !in pdu && '+' !in parameters && '+' !in pdu
    requires x < |Notification(parameters, pdu)|
    ensures Notification(parameters, pdu)[x] == '\n' ==> x == |parameters| + 6 || x == |parameters| + |pdu| + 8
    ensures Notification(parameters, pdu)[x] == '+' <==> x == 0
  {
    NotificationAt(parameters, pdu, x);
  }

  /** A piece that does not reach from the plus sign to the last line feed captures nothing. */
  lemma PartHasNoCapture(t: Transmission, a: nat, b: nat)
    requires IsTransmission(t) && a <= b <= |Sent(t)|
    requires a > From(t) || To(t) > b
    ensures Capture(Sent(t)[a..b]).None?
  {
    var piece := Sent(t)[a..b];
    if a <= From(t) < b {
      var at := From(t) - a;
      forall x | 0 <= x < |piece| ensures (piece[x] == '+' <==> x == at)
                                          && (at <= x && piece[x] == '\n' ==> x == at + |t.parameters| + 6) {
        SentAt(t, a + x);
      }
      OneLineFeed(piece, at, at + |t.parameters| + 6);
      OnlyCapture(piece, 0, at);
    } else {
      forall x | 0 <= x < |piece| ensures piece[x] != '+' {
        SentAt(t, a + x);
      }
      assert piece[0..] == piece;
      NoCaptureFrom(piece, 0);
    }
  }

  lemma SentAt(t: Transmission, x: nat)
    requires IsTransmission(t) && x < |Sent(t)|
    ensures Sent(t)[x] == '+' <==> x == From(t)
    ensures From(t) <= x < To(t) && Sent(t)[x] == '\n' ==> x == From(t) + |t.parameters| + 6 || x == To(t) - 1
  {
    FrameParts(t.before, t.parameters, t.pdu, t.after);
    var n := Notification(t.parameters, t.pdu);
    if x < From(t) {
      assert Sent(t)[x] == t.before[x];
    } else if x < To(t) {
      assert Sent(t)[x] == n[x - From(t)];
      NotificationMarks(t.parameters, t.pdu, x - From(t));
      NotificationAt(t.parameters, t.pdu, x - From(t));
    } else {
      assert Sent(t)[x] == t.after[x - To(t)];
    }
  }

  lemma WholePiece(before: string, n: string, after: string, a: nat, b: nat)
    requires a <= |before| && |before| + |n| <= b <= |before + (n + after)|
    ensures (before + (n + after))[a..b] == before[a..] + (n + after[..b - |before| - |n|])
  {
  }

  /** A piece that does captures the PDU. */
  lemma WholeIsCaptured(t: Transmission, a: nat, b: nat)
    requires IsTransmission(t) && a <= From(t) && To(t) <= b <= |Sent(t)|
    ensures Capture(Sent(t)[a..b]) == Some(t.pdu)
  {
    var n := Notification(t.parameters, t.pdu);
    var before, after := t.before[a..], t.after[..b - To(t)];
    FrameParts(t.before, t.parameters, t.pdu, t.after);
    FrameParts(before, t.parameters, t.pdu, after);
    WholePiece(t.before, n, t.after, a, b);
    NotificationIsParsed(t.pdu, [], before, t.parameters, after, []);
  }

  // ---------- All reads ----------

  lemma {:induction false} PieceOfJoined(pieces: seq<string>, i: nat)
    requires i < |pieces|
    ensures |Joined(pieces[..i])| + |pieces[i]| <= |Joined(pieces)|
    ensures Joined(pieces)[|Joined(pieces[..i])|..|Joined(pieces[..i])| + |pieces[i]|] == pieces[i]
  {
    if i > 0 {
      PieceOfJoined(pieces[1..], i - 1);
      assert pieces[..i][1..] == pieces[1..][..i - 1];
    }
  }

  lemma PieceOfSent(t: Transmission, i: nat)
    requires IsTransmission(t) && i < |t.pieces|
    ensures Offset(t, i) + |t.pieces[i]| <= |Sent(t)|
    ensures t.pieces[i] == Sent(t)[Offset(t, i)..Offset(t, i) + |t.pieces[i]|]
  {
    PieceOfJoined(t.pieces, i);
  }

  /** What one read captures. */
  lemma ReadCaptures(t: Transmission, i: nat)
    requires IsTransmission(t) && i < |t.pieces|
    ensures Capture(t.pieces[i]) == if IsWhole(t, i) then Some(t.pdu) else None
  {
    PieceOfSent(t, i);
    if IsWhole(t, i) {
      WholeIsCaptured(t, Offset(t, i), Offset(t, i) + |t.pieces[i]|);
    } else {
      PartHasNoCapture(t, Offset(t, i), Offset(t, i) + |t.pieces[i]|);
    }
  }

  lemma {:induction false} OffsetsGrow(t: Transmission, i: nat, j: nat)
    requires i < j <= |t.pieces|
    ensures Offset(t, i) + |t.pieces[i]| <= Offset(t, j)
    decreases j
  {
    JoinedNext(t.pieces, j - 1);
    if i < j - 1 {
      OffsetsGrow(t, i, j - 1);
    }
  }

  lemma {:induction false} JoinedNext(pieces: seq<string>, i: nat)
    requires i < |pieces|
    ensures |Joined(pieces[..i + 1])| == |Joined(pieces[..i])| + |pieces[i]|
  {
    if i > 0 {
      JoinedNext(pieces[1..], i - 1);
      assert pieces[..i][1..] == pieces[1..][..i - 1] && pieces[..i + 1][1..] == pieces[1..][..i];
    }
  }

  lemma WholeOnce(t: Transmission, i: nat, j: nat)
    requires i < j < |t.pieces| && IsWhole(t, i)
    ensures !IsWhole(t, j)
  {
    OffsetsGrow(t, i, j);
  }

  /** The reads as the daemon gets them. */
  function Read(pieces: seq<string>): (responses: seq<Result<string, SmsError>>)
    ensures |responses| == |pieces|
  {
    seq(|pieces|, i requires 0 <= i < |pieces| => Ok(pieces[i]))
  }

  lemma NextRead(pieces: seq<string>, n: nat, rest: seq<Result<string, SmsError>>)
    requires n < |pieces|
    ensures var responses := Read(pieces[n..]) + rest;
            responses != [] && responses[0] == Ok(pieces[n]) && responses[1..] == Read(pieces[n + 1..]) + rest
  {
    assert Read(pieces[n..])[1..] == Read(pieces[n + 1..]);
  }

  /** Reads of which none is whole end no wait. */
  lemma {:induction false} NothingHeard(t: Transmission, n: nat, rest: seq<Result<string, SmsError>>)
    requires IsTransmission(t) && n <= |t.pieces|
    requires forall i :: n <= i < |t.pieces| ==> !IsWhole(t, i)
    ensures Waits(Read(t.pieces[n..]) + rest) == Waits(rest)
    decreases |t.pieces| - n
  {
    if n == |t.pieces| {
      assert Read(t.pieces[n..]) + rest == rest;
    } else {
      NextRead(t.pieces, n, rest);
      ReadCaptures(t, n);
      NothingHeard(t, n + 1, rest);
    }
  }

  /** What a notification that is heard leads to, in front of what comes later. */
  function Ended(pdu: string, later: seq<Wait>): seq<Wait> {
    if Parsed(pdu) == WaitPanicked then [WaitPanicked] else [Parsed(pdu)] + later
  }

  lemma {:induction false} OnceHeard(t: Transmission, n: nat, i: nat, rest: seq<Result<string, SmsError>>)
    requires IsTransmission(t) && n <= i < |t.pieces| && IsWhole(t, i)
    ensures Waits(Read(t.pieces[n..]) + rest) == Ended(t.pdu, Waits(rest))
    decreases i - n
  {
    NextRead(t.pieces, n, rest);
    ReadCaptures(t, n);
    if n < i {
      forall j | n <= j < i ensures !IsWhole(t, j) {
        if IsWhole(t, j) {
          WholeOnce(t, j, i);
        }
      }
      OnceHeard(t, n + 1, i, rest);
    } else {
      forall j | i < j < |t.pieces| ensures !IsWhole(t, j) {
        WholeOnce(t, i, j);
      }
      NothingHeard(t, n + 1, rest);
    }
  }

  /**
    Of every transmission, however it is cut into reads, the daemon takes notice exactly if one read
    holds the whole notification; otherwise the wait goes on as if nothing had been sent.
   */
  lemma TransmissionIsHeard(t: Transmission, rest: seq<Result<string, SmsError>>)
    requires IsTransmission(t)
    ensures Waits(Read(t.pieces) + rest) == if IsHeard(t) then Ended(t.pdu, Waits(rest)) else Waits(rest)
    ensures WaitFor(Read(t.pieces) + rest) == if IsHeard(t) then Parsed(t.pdu) else WaitFor(rest)
  {
    assert t.pieces[0..] == t.pieces;
    if IsHeard(t) {
      var i: nat :| 0 <= i < |t.pieces| && IsWhole(t, i);
      OnceHeard(t, 0, i, rest);
    } else {
      NothingHeard(t, 0, rest);
    }
    FirstWait(Read(t.pieces) + rest);
    FirstWait(rest);
  }

  // ---------- What can be heard ----------

  lemma NotificationBytes(parameters: string, pdu: string)
    ensures Bytes(Notification(parameters, pdu)) == Bytes(parameters) + Bytes(pdu) + 9
  {
    BytesAppend(INDICATION + parameters + "\r\n", pdu + "\r\n");
    BytesAppend(INDICATION + parameters, "\r\n");
    BytesAppend(INDICATION, parameters);
    BytesAppend(pdu, "\r\n");
    AsciiBytes(INDICATION);
    AsciiBytes("\r\n");
  }

  lemma NestedSlice(s: string, a: nat, b: nat, i: nat, j: nat)
    requires a <= b <= |s| && i <= j <= b - a
    ensures s[a..b][i..j] == s[a + i..a + j]
  {
    var inner, direct := s[a..b][i..j], s[a + i..a + j];
    assert |inner| == |direct|;
    assert forall k :: 0 <= k < j - i ==> inner[k] == direct[k];
  }

  lemma SliceBytes(s: string, a: nat, b: nat, from: nat, to: nat)
    requires a <= from <= to <= b <= |s|
    ensures Bytes(s[from..to]) <= Bytes(s[a..b])
  {
    var piece := s[a..b];
    NestedSlice(s, a, b, from - a, to - a);
    BytesAround(piece, from - a, to - a);
  }

  lemma NotificationInSent(t: Transmission)
    requires IsTransmission(t)
    ensures To(t) <= |Sent(t)| && Sent(t)[From(t)..To(t)] == Notification(t.parameters, t.pdu)
  {
    FrameParts(t.before, t.parameters, t.pdu, t.after);
    Sequences.Middle(t.before, Notification(t.parameters, t.pdu), t.after);
  }

  /** What is heard takes no more bytes than one read. */
  lemma HeardIsShort(t: Transmission)
    requires IsTransmission(t) && IsHeard(t)
    ensures Bytes(Notification(t.parameters, t.pdu)) <= RESPONSE_SIZE
  {
    var i: nat :| 0 <= i < |t.pieces| && IsWhole(t, i);
    PieceOfSent(t, i);
    NotificationInSent(t);
    SliceBytes(Sent(t), Offset(t, i), Offset(t, i) + |t.pieces[i]|, From(t), To(t));
  }

  /** One character a read. */
  function Singles(s: string): (pieces: seq<string>)
    ensures |pieces| == |s|
    ensures forall i :: 0 <= i < |s| ==> pieces[i] == [s[i]]
  {
    seq(|s|, i requires 0 <= i < |s| => [s[i]])
  }

  lemma {:induction false} JoinedSingles(s: string)
    ensures Joined(Singles(s)) == s
  {
    if s != "" {
      assert Singles(s)[1..] == Singles(s[1..]);
      JoinedSingles(s[1..]);
      HeadTail(s);
    }
  }

  lemma {:induction false} JoinedAppend(a: seq<string>, b: seq<string>)
    ensures Joined(a + b) == Joined(a) + Joined(b)
  {
    Empty(b);
    if a != [] {
      AppendStep(a, b);
      JoinedAppend(a[1..], b);
      Associative(a[0], Joined(a[1..]), Joined(b));
    }
  }

  /** The reads in which the notification is one. */
  function Around(before: string, n: string, after: string): seq<string> {
    Singles(before) + ([n] + Singles(after))
  }

  lemma AroundJoined(before: string, n: string, after: string)
    ensures Joined(Around(before, n, after)) == before + (n + after)
    ensures |Joined(Around(before, n, after)[..|before|])| == |before|
  {
    JoinedSingles(before);
    JoinedSingles(after);
    JoinedAppend(Singles(before), [n] + Singles(after));
    assert ([n] + Singles(after))[1..] == Singles(after);
    assert Around(before, n, after)[..|before|] == Singles(before);
  }

  lemma SingleBytes(c: char)
    ensures Bytes([c]) <= 4
  {
  }

  /** A notification that can be cut so that it is heard, with what is sent before and after it. */
  ghost predicate CanBeHeard(before: string, parameters: string, pdu: string, after: string) {
    exists pieces :: IsTransmission(Transmission(before, parameters, pdu, after, pieces))
                     && IsHeard(Transmission(before, parameters, pdu, after, pieces))
  }

  lemma ShortIsHeard(t: Transmission)
    requires '+' !in t.before && '+' !in t.after
    requires '+' !in t.parameters && '\n' !in t.parameters
    requires '+' !in t.pdu && '\n' !in t.pdu && t.pdu != ""
    requires Bytes(Notification(t.parameters, t.pdu)) <= RESPONSE_SIZE
    requires t.pieces == Around(t.before, Notification(t.parameters, t.pdu), t.after)
    ensures IsTransmission(t) && IsHeard(t)
  {
    var n := Notification(t.parameters, t.pdu);
    FrameParts(t.before, t.parameters, t.pdu, t.after);
    AroundJoined(t.before, n, t.after);
    forall i | 0 <= i < |t.pieces| ensures Bytes(t.pieces[i]) <= RESPONSE_SIZE {
      if i != |t.before| {
        SingleBytes(t.pieces[i][0]);
      }
    }
    assert IsWhole(t, |t.before|);
  }

  /** A notification can be heard at all if and only if it takes no more bytes than one read. */
  lemma HearingIsPossible(before: string, parameters: string, pdu: string, after: string)
    requires '+' !in before && '+' !in after
    requires '+' !in parameters && '\n' !in parameters
    requires '+' !in pdu && '\n' !in pdu && pdu != ""
    ensures CanBeHeard(before, parameters, pdu, after) <==> Bytes(parameters) + Bytes(pdu) + 9 <= RESPONSE_SIZE
  {
    NotificationBytes(parameters, pdu);
    if pieces :| IsTransmission(Transmission(before, parameters, pdu, after, pieces))
                 && IsHeard(Transmission(before, parameters, pdu, after, pieces)) {
      HeardIsShort(Transmission(before, parameters, pdu, after, pieces));
    }
    if Bytes(parameters) + Bytes(pdu) + 9 <= RESPONSE_SIZE {
      ShortIsHeard(Transmission(before, parameters, pdu, after, Around(before, Notification(parameters, pdu), after)));
    }
  }
}
