/** From what the modem delivers to what the daemon does: messages of unknown senders, and what ends the daemon. */
module Reception {
  import opened Wrappers
  import opened Alphabet
  import opened Arrivals
  import opened BitStream
  import opened Configuration
  import opened Delivery
  import opened Indication
  import opened Messages
  import opened Modem
  import opened Pdu
  import opened Septets
  import opened Sequences
  import opened Text
  import opened Transmissions
  import opened Tunnels
  import opened RunHistory
  import Daemons
  import Displacement

  /** A delivery of some data, sent as the PDU of a transmission. */
  ghost predicate IsDelivery(v: Envelope, length: nat, data: seq<nat>, t: Transmission) {
    && IsEnvelope(v) && length < 256 && Fit(data, 8)
    && IsTransmission(t) && t.pdu == DeliverText(v, length, data)
  }

  // ---------- What can be heard ----------

  /** The octets of a delivery; eight are the SMSC address, which is not part of the TPDU. */
  lemma DeliveryOctets(v: Envelope, length: nat, data: seq<nat>)
    requires IsEnvelope(v)
    ensures |DeliverOctets(v, length, data)| == 27 + |data|
  {
  }

  lemma DeliveryBytes(v: Envelope, length: nat, data: seq<nat>)
    requires IsEnvelope(v)
    ensures Bytes(DeliverText(v, length, data)) == 54 + 2 * |data|
  {
    DeliveryOctets(v, length, data);
    HexBytes(DeliverOctets(v, length, data));
  }

  /**
    A delivery can be heard at all, in some reads, exactly if its data and the parameters of its
    indication leave the notification within one read.
   */
  lemma DeliveryCanBeHeard(v: Envelope, length: nat, data: seq<nat>, before: string, parameters: string, after: string)
    requires IsEnvelope(v)
    requires '+' !in before && '+' !in after && '+' !in parameters && '\n' !in parameters
    ensures CanBeHeard(before, parameters, DeliverText(v, length, data), after)
            <==> Bytes(parameters) + 2 * |data| <= 65
  {
    DeliverIsOneLine(v, length, data);
    DeliveryBytes(v, length, data);
    HearingIsPossible(before, parameters, DeliverText(v, length, data), after);
  }

  /**
    The indication's parameters in section 3.4.1 of 3GPP TS 27.005: no name, and the octets of the TPDU,
    which are those of `DeliveryOctets` without the eight of the SMSC address.
   */
  function StandardParameters(data: seq<nat>): string {
    " ," + Decimal(19 + |data|)
  }

  lemma DecimalLength(n: nat)
    requires n >= 10
    ensures |Decimal(n)| >= 2 && (n < 100 ==> |Decimal(n)| == 2)
  {
  }

  lemma StandardBytes(data: seq<nat>)
    ensures '+' !in StandardParameters(data) && '\n' !in StandardParameters(data)
    ensures Bytes(StandardParameters(data)) == 2 + |Decimal(19 + |data|)|
  {
    var digits := Decimal(19 + |data|);
    forall i | 0 <= i < |digits| ensures '0' <= digits[i] <= '9' {
      assert IsDigit(digits[i]);
    }
    AsciiBytes(" ," + digits);
  }

  /** From a modem that writes the indication so, deliveries of at most 30 octets can be heard, and no others. */
  lemma StandardDeliveryCanBeHeard(v: Envelope, length: nat, data: seq<nat>, before: string, after: string)
    requires IsEnvelope(v) && '+' !in before && '+' !in after
    ensures CanBeHeard(before, StandardParameters(data), DeliverText(v, length, data), after) <==> |data| <= 30
  {
    StandardBytes(data);
    DecimalLength(19 + |data|);
    DeliveryCanBeHeard(v, length, data, before, StandardParameters(data), after);
  }

  /** The octets of a message in the default alphabet: 30 for at most 34 septets, 32 for at most 36. */
  lemma PackedOctets(d: Deliver, fill: Fill)
    requires IsDeliver(d)
    ensures var octets := |Pack(EncodeText(d.message).value, fill)|;
            (octets <= 30 <==> Count(d) <= 34) && (octets <= 32 <==> Count(d) <= MAX_SEPTETS)
  {
    EncodeTextFits(d.message);
    PackedStream(EncodeText(d.message).value, fill);
    Eighths(Count(d));
  }

  lemma Eighths(count: nat)
    ensures (7 * count + 7) / 8 <= 32 <==> count <= MAX_SEPTETS
    ensures (7 * count + 7) / 8 <= 30 <==> count <= 34
  {
  }

  /** So can messages of at most 34 septets, and no others. */
  lemma StandardMessageCanBeHeard(d: Deliver, fill: Fill, before: string, after: string)
    requires IsDeliver(d) && '+' !in before && '+' !in after
    ensures var data := Pack(EncodeText(d.message).value, fill);
            CanBeHeard(before, StandardParameters(data), MessageText(d, fill), after) <==> Count(d) <= 34
  {
    PackedOctets(d, fill);
    StandardDeliveryCanBeHeard(d.envelope, Count(d), Pack(EncodeText(d.message).value, fill), before, after);
  }

  lemma HeardIsWithinOneRead(t: Transmission)
    requires IsTransmission(t) && IsHeard(t)
    ensures Bytes(t.pdu) + 9 <= RESPONSE_SIZE
  {
    HeardIsShort(t);
    NotificationBytes(t.parameters, t.pdu);
  }

  lemma LongIsNotHeard(v: Envelope, length: nat, data: seq<nat>, t: Transmission)
    requires IsDelivery(v, length, data, t) && |data| > 32
    ensures !IsHeard(t)
  {
    DeliveryBytes(v, length, data);
    if IsHeard(t) {
      HeardIsWithinOneRead(t);
    }
  }

  /** A delivery of more than 32 octets is never heard, whatever its reads: the wait goes on. */
  lemma LongDeliveryIsIgnored(v: Envelope, length: nat, data: seq<nat>, t: Transmission,
                              rest: seq<Result<string, SmsError>>)
    requires IsDelivery(v, length, data, t) && |data| > 32
    ensures WaitFor(Read(t.pieces) + rest) == WaitFor(rest)
  {
    LongIsNotHeard(v, length, data, t);
    TransmissionIsHeard(t, rest);
  }

  // ---------- What waits come to ----------

  /** The event that a wait leads to. */
  predicate IsEventOf(w: Wait, e: Daemons.Event) {
    match w
    case Received(sms) => e.Received? && e.sender == sms.number && e.text == sms.message
    case ReadFailed => e.ReadingFailed?
    case WaitPanicked => e.ReadingPanicked?
    case StillWaiting => e.Tick?
  }

  /** What reaches the serial port without a configured user's doing. */
  datatype Noise = FailedReading | Line(transmission: Transmission)

  /** No user has the number that a PDU is read as being from, if it is readable at all. */
  predicate IsUnknown(c: Config, pdu: string) {
    SenderIn(pdu).Some? ==> UserOfPhone(c.users, SenderIn(pdu).value).None?
  }

  /** A failed reading, or a notification of any PDU of an unknown sender, however it is cut into reads. */
  predicate IsNoise(c: Config, noise: Noise) {
    noise.Line? ==> IsTransmission(noise.transmission) && IsUnknown(c, noise.transmission.pdu)
  }

  function ReadsOf(noise: Noise): seq<Result<string, SmsError>> {
    match noise
    case FailedReading => [Err(ReadingError)]
    case Line(t) => Read(t.pieces)
  }

  function AllReads(noise: seq<Noise>): seq<Result<string, SmsError>> {
    if noise == [] then [] else ReadsOf(noise[0]) + AllReads(noise[1..])
  }

  /** A PDU that is heard, and that reading panics on. */
  ghost predicate Kills(noise: Noise) {
    noise.Line? && IsHeard(noise.transmission) && PduPanics(noise.transmission.pdu)
  }

  /** What kills among the deliveries, whatever their coding: those that are heard and cut. */
  lemma DeliveryKills(c: Config, v: Envelope, length: nat, data: seq<nat>, t: Transmission)
    requires IsDelivery(v, length, data, t)
    ensures IsNoise(c, Line(t)) <==> UserOfPhone(c.users, ReadNumber(v)).None?
    ensures Kills(Line(t)) <==> IsHeard(t) && DataCut(data, length)
  {
    DeliveryPanics(v, length, data);
    CodingIsIgnored(v, length, data);
  }

  /** Among those in the default alphabet: those whose septet count lies inside a character. */
  lemma MessageKills(c: Config, d: Deliver, fill: Fill, t: Transmission)
    requires IsDeliver(d) && IsTransmission(t) && t.pdu == MessageText(d, fill)
    ensures Kills(Line(t)) <==> IsHeard(t) && IsCut(d, fill)
  {
    EncodeTextFits(d.message);
    PackedStream(EncodeText(d.message).value, fill);
    DeliverPanics(d, fill);
    ReadingPanics(t.pdu);
  }

  /** What a wait that noise ends comes to. */
  predicate IsForeignWait(c: Config, w: Wait) {
    w.ReadFailed? || w.WaitPanicked? || (w.Received? && UserOfPhone(c.users, w.sms.number).None?)
  }

  /** What one piece of noise adds in front of what comes later. */
  ghost predicate IsAdded(c: Config, noise: Noise, waits: seq<Wait>, later: seq<Wait>) {
    if Kills(noise) then waits == [WaitPanicked]
    else waits == later
         || (waits != [] && waits[1..] == later && !waits[0].WaitPanicked? && IsForeignWait(c, waits[0]))
  }

  lemma NoiseIsHeard(c: Config, noise: Noise, later: seq<Result<string, SmsError>>)
    requires IsNoise(c, noise)
    ensures IsAdded(c, noise, Waits(ReadsOf(noise) + later), Waits(later))
  {
    match noise
    case FailedReading =>
      assert (ReadsOf(noise) + later)[1..] == later;
    case Line(t) =>
      TransmissionIsHeard(t, later);
      ReadingPanics(t.pdu);
  }

  lemma AddedMembers(c: Config, noise: Noise, waits: seq<Wait>, later: seq<Wait>)
    requires IsAdded(c, noise, waits, later) && forall w :: w in later ==> IsForeignWait(c, w)
    ensures forall w :: w in waits ==> IsForeignWait(c, w)
    ensures WaitPanicked in waits <==> Kills(noise) || WaitPanicked in later
  {
    if !Kills(noise) && waits != later {
      assert forall w :: w in waits <==> w == waits[0] || w in later by {
        HeadTail(waits);
      }
    }
  }

  ghost predicate SomeKills(noise: seq<Noise>) {
    exists i :: 0 <= i < |noise| && Kills(noise[i])
  }

  lemma KillsNowOrLater(noise: seq<Noise>)
    requires noise != []
    ensures SomeKills(noise) <==> Kills(noise[0]) || SomeKills(noise[1..])
  {
    if SomeKills(noise) && !Kills(noise[0]) {
      var i :| 0 <= i < |noise| && Kills(noise[i]);
      assert noise[1..][i - 1] == noise[i];
    }
    if SomeKills(noise[1..]) {
      var i :| 0 <= i < |noise[1..]| && Kills(noise[1..][i]);
      assert noise[i + 1] == noise[1..][i];
    }
  }

  /** What noise comes to: no configured user is heard, and only a message that kills ends it with a panic. */
  lemma {:induction false} NoiseWaits(c: Config, noise: seq<Noise>)
    requires forall i :: 0 <= i < |noise| ==> IsNoise(c, noise[i])
    ensures forall w :: w in Waits(AllReads(noise)) ==> IsForeignWait(c, w)
    ensures WaitPanicked in Waits(AllReads(noise)) <==> SomeKills(noise)
  {
    if noise != [] {
      KillsNowOrLater(noise);
      NoiseWaits(c, noise[1..]);
      NoiseIsHeard(c, noise[0], AllReads(noise[1..]));
      AddedMembers(c, noise[0], Waits(AllReads(noise)), Waits(AllReads(noise[1..])));
    }
  }

  // ---------- What the daemon makes of it ----------

  /** The events that waits lead to, in turn. */
  predicate AreEventsOf(waits: seq<Wait>, events: seq<Daemons.Event>) {
    |waits| == |events| && forall i :: 0 <= i < |waits| ==> IsEventOf(waits[i], events[i])
  }

  /** An event that is no configured user's doing, nor the timer's. */
  predicate IsForeign(c: Config, e: Daemons.Event) {
    e.ReadingFailed? || e.ReadingPanicked? || (e.Received? && UserOfPhone(c.users, e.sender).None?)
  }

  lemma ForeignStep(c: Config, s: Daemons.State, e: Daemons.Event)
    requires Daemons.Enabled(c, s, e) && IsForeign(c, e)
    ensures Daemons.Sends(c, s, e) == []
    ensures Daemons.Step(c, s, e).running <==> !e.ReadingPanicked?
    ensures Daemons.Step(c, s, e).world
         == if e.ReadingPanicked? then Release(s.world, s.world.tunnels.Keys) else s.world
  {
  }

  lemma {:induction false} ForeignRun(c: Config, s: Daemons.State, events: seq<Daemons.Event>)
    requires Daemons.Possible(c, s, events) && s.running
    requires forall e :: e in events ==> IsForeign(c, e)
    ensures Daemons.AllSends(c, s, events) == []
    ensures Daemons.After(c, s, events).running <==> forall e :: e in events ==> !e.ReadingPanicked?
    ensures Daemons.After(c, s, events).world
         == if Daemons.After(c, s, events).running then s.world else Release(s.world, s.world.tunnels.Keys)
    decreases |events|
  {
    if events != [] {
      var last := |events| - 1;
      LastEvent(c, s, events, last);
      ForeignRun(c, s, events[..last]);
      ForeignStep(c, Daemons.After(c, s, events[..last]), events[last]);
      Members(events, last);
    }
  }

  lemma Members<T>(s: seq<T>, last: nat)
    requires last + 1 == |s|
    ensures forall x :: x in s <==> x in s[..last] || x == s[last]
  {
  }

  lemma ForeignEvents(c: Config, waits: seq<Wait>, events: seq<Daemons.Event>)
    requires AreEventsOf(waits, events) && forall w :: w in waits ==> IsForeignWait(c, w)
    ensures forall e :: e in events ==> IsForeign(c, e)
    ensures WaitPanicked in waits <==> exists e :: e in events && e.ReadingPanicked?
  {
    forall i | 0 <= i < |events|
      ensures IsForeign(c, events[i]) && (waits[i] == WaitPanicked <==> events[i].ReadingPanicked?)
    {
      assert waits[i] in waits && IsEventOf(waits[i], events[i]);
    }
    if WaitPanicked in waits {
      var i :| 0 <= i < |waits| && waits[i] == WaitPanicked;
      assert events[i] in events;
    }
    if e :| e in events && e.ReadingPanicked? {
      var i :| 0 <= i < |events| && events[i] == e;
      assert waits[i] in waits;
    }
  }

  /**
    Notifications of any PDUs from unknown senders, and failed readings, in whatever reads they arrive,
    are never answered, and change nothing, exactly as long as no PDU that is heard is one that reading
    panics on: such a one ends the daemon and all its tunnels.
   */
  lemma NoiseIsSilent(c: Config, s: Daemons.State, noise: seq<Noise>, events: seq<Daemons.Event>)
    requires Daemons.Possible(c, s, events) && s.running
    requires forall i :: 0 <= i < |noise| ==> IsNoise(c, noise[i])
    requires AreEventsOf(Waits(AllReads(noise)), events)
    ensures Daemons.AllSends(c, s, events) == []
    ensures Daemons.After(c, s, events).running <==> forall i :: 0 <= i < |noise| ==> !Kills(noise[i])
    ensures Daemons.After(c, s, events).world
         == if Daemons.After(c, s, events).running then s.world else Release(s.world, s.world.tunnels.Keys)
  {
    NoiseWaits(c, noise);
    ForeignEvents(c, Waits(AllReads(noise)), events);
    ForeignRun(c, s, events);
  }

  // ---------- That there is such a run ----------

  lemma {:induction false} PanicIsLast(responses: seq<Result<string, SmsError>>, i: nat)
    requires i + 1 < |Waits(responses)|
    ensures !Waits(responses)[i].WaitPanicked?
  {
    if responses[0].Ok? && Capture(responses[0].value).None? {
      PanicIsLast(responses[1..], i);
    } else if i > 0 {
      PanicIsLast(responses[1..], i - 1);
    }
  }

  lemma {:induction false} NoiseIsShort(c: Config, noise: seq<Noise>)
    requires forall i :: 0 <= i < |noise| ==> IsNoise(c, noise[i])
    ensures AreShort(AllReads(noise))
  {
    if noise != [] {
      NoiseIsShort(c, noise[1..]);
      assert AreShort(ReadsOf(noise[0])) by {
        assert IsNoise(c, noise[0]);
      }
      ShortAppend(ReadsOf(noise[0]), AllReads(noise[1..]));
    }
  }

  lemma ShortAppend(a: seq<Result<string, SmsError>>, b: seq<Result<string, SmsError>>)
    requires AreShort(a) && AreShort(b)
    ensures AreShort(a + b)
  {
  }

  lemma {:induction false} SomeOrder(references: set<u32>) returns (order: seq<u32>)
    ensures forall r :: r in order <==> r in references
    ensures forall i, j :: 0 <= i < j < |order| ==> order[i] != order[j]
    decreases |references|
  {
    if references == {} {
      order := [];
    } else {
      var r :| r in references;
      var rest := SomeOrder(references - {r});
      order := [r] + rest;
    }
  }

  /** An event at once for a wait. */
  function AtOnce(c: Config, w: Wait, now: nat, order: seq<u32>): Daemons.Event {
    match w
    case Received(sms) =>
      Daemons.Received(now, now, sms.number, sms.message, Displacement.Good(order, c).(created := now))
    case ReadFailed => Daemons.ReadingFailed(now)
    case _ => Daemons.ReadingPanicked(now)
  }

  lemma AtOnceIsEnabled(c: Config, s: Daemons.State, w: Wait, order: seq<u32>)
    requires s.running && IsForeignWait(c, w) && IsOrder(order, s.world.tunnels)
    requires w.Received? ==> Arrives(w.sms.number, w.sms.message)
    ensures Daemons.Enabled(c, s, AtOnce(c, w, s.now, order)) && IsEventOf(w, AtOnce(c, w, s.now, order))
  {
  }

  /** Noise that has not ended the daemon leaves it ready for more. */
  lemma StillRuns(c: Config, s: Daemons.State, waits: seq<Wait>, events: seq<Daemons.Event>)
    requires s.running && Daemons.Possible(c, s, events) && AreEventsOf(waits, events)
    requires forall w :: w in waits ==> IsForeignWait(c, w) && !w.WaitPanicked?
    ensures Daemons.After(c, s, events).running && Daemons.After(c, s, events).world == s.world
  {
    ForeignEvents(c, waits, events);
    ForeignRun(c, s, events);
  }

  lemma NextEvents(waits: seq<Wait>, events: seq<Daemons.Event>, e: Daemons.Event)
    requires waits != [] && AreEventsOf(waits[..|waits| - 1], events) && IsEventOf(waits[|waits| - 1], e)
    ensures AreEventsOf(waits, events + [e])
  {
    assert forall i :: 0 <= i < |waits| - 1 ==> waits[..|waits| - 1][i] == waits[i];
  }

  lemma {:induction false} WaitsHaveRun(c: Config, s: Daemons.State, waits: seq<Wait>, order: seq<u32>)
    returns (events: seq<Daemons.Event>)
    requires s.running && IsOrder(order, s.world.tunnels)
    requires forall w :: w in waits ==> IsForeignWait(c, w) && (w.Received? ==> Arrives(w.sms.number, w.sms.message))
    requires forall i :: 0 <= i < |waits| - 1 ==> !waits[i].WaitPanicked?
    ensures Daemons.Possible(c, s, events) && AreEventsOf(waits, events)
  {
    events := [];
    if waits != [] {
      var last := |waits| - 1;
      var earlier := WaitsHaveRun(c, s, waits[..last], order);
      StillRuns(c, s, waits[..last], earlier);
      var e := AtOnce(c, waits[last], Daemons.After(c, s, earlier).now, order);
      AtOnceIsEnabled(c, Daemons.After(c, s, earlier), waits[last], order);
      Displacement.Extend(c, s, earlier, e);
      NextEvents(waits, earlier, e);
      events := earlier + [e];
    }
  }

  /** Whatever noise reaches the serial port, the daemon has a run that it leads to. */
  lemma NoiseHasRun(c: Config, s: Daemons.State, noise: seq<Noise>)
    requires s.running && forall i :: 0 <= i < |noise| ==> IsNoise(c, noise[i])
    ensures exists events :: Daemons.Possible(c, s, events) && AreEventsOf(Waits(AllReads(noise)), events)
  {
    var responses := AllReads(noise);
    NoiseWaits(c, noise);
    NoiseIsShort(c, noise);
    WaitsArrive(responses);
    forall i | 0 <= i < |Waits(responses)| - 1 ensures !Waits(responses)[i].WaitPanicked? {
      PanicIsLast(responses, i);
    }
    var order := SomeOrder(s.world.tunnels.Keys);
    var events := WaitsHaveRun(c, s, Waits(responses), order);
  }

  // ---------- PDUs that end the daemon ----------

  /**
    Whoever sends it: a PDU that reading panics on can only end the running daemon and release every
    child, if it is heard; one that is not leaves the wait to what comes next.
   */
  lemma PanicEndsDaemon(c: Config, s: Daemons.State, t: Transmission, rest: seq<Result<string, SmsError>>,
                        e: Daemons.Event)
    requires IsTransmission(t) && PduPanics(t.pdu)
    requires Daemons.Enabled(c, s, e) && IsEventOf(WaitFor(Read(t.pieces) + rest), e)
    ensures IsHeard(t) ==> Daemons.Step(c, s, e) == Daemons.Halted(s.(now := e.at))
    ensures !IsHeard(t) ==> IsEventOf(WaitFor(rest), e)
  {
    TransmissionIsHeard(t, rest);
    ReadingPanics(t.pdu);
  }
}
