/** `init`: settling on a status, unlocking the SIM, and telling a registered user about a restart. */
module Init {
  import opened Wrappers
  import opened Configuration
  import opened Sequences
  import opened Status

  datatype InitError = StatusUnreadable(status: StatusError) | PinVerificationFailed | SmsInitError

  datatype Action = ReadStatus | VerifyPin | Sleep

  /** How the settling loop ends, and what it has done. */
  datatype Settled = Settled(result: Result<Status, InitError>, actions: seq<Action>)

  function After(actions: seq<Action>, s: Settled): Settled {
    s.(actions := actions + s.actions)
  }

  /**
    The loop from a status on, with the answers to the status requests still to come. Either the
    unlocking is used up or a retry is.
   */
  function Settle(c: Config, answers: nat -> Probes, pinAccepted: bool,
                  status: Status, unlocked: bool, retries: nat, n: nat): Settled
    decreases if unlocked then 0 else 1, retries
  {
    match status.device
    case SimLocked =>
      if unlocked then Settled(Ok(status), [])
      else if !pinAccepted then Settled(Err(PinVerificationFailed), [VerifyPin])
      else (match GetStatus(c, answers(n)) {
        case Err(e) => Settled(Err(StatusUnreadable(e)), [VerifyPin, ReadStatus])
        case Ok(next) =>
          After([VerifyPin, ReadStatus], Settle(c, answers, pinAccepted, next, true, retries, n + 1))
      })
    case Ready => Settled(Ok(status), [])
    case _ =>
      if retries == 0 then Settled(Ok(status), [])
      else match GetStatus(c, answers(n))
        case Err(e) => Settled(Err(StatusUnreadable(e)), [Sleep, ReadStatus])
        case Ok(next) =>
          After([Sleep, ReadStatus], Settle(c, answers, pinAccepted, next, unlocked, retries - 1, n + 1))
  }

  function SettleAll(c: Config, answers: nat -> Probes, pinAccepted: bool): Settled {
    match GetStatus(c, answers(0))
    case Err(e) => Settled(Err(StatusUnreadable(e)), [ReadStatus])
    case Ok(status) => After([ReadStatus], Settle(c, answers, pinAccepted, status, false, c.initMaxRetry, 1))
  }

  lemma AfterAfter(earlier: seq<Action>, now: seq<Action>, s: Settled)
    ensures After(earlier, After(now, s)) == After(earlier + now, s)
  {
    Associative(earlier, now, s.actions);
  }

  lemma AfterEnd(earlier: seq<Action>, result: Result<Status, InitError>, now: seq<Action>)
    ensures After(earlier, Settled(result, now)) == Settled(result, earlier + now)
    ensures earlier + [] == earlier
  {
    Empty(earlier);
  }

  method SettleStatus(c: Config, answers: nat -> Probes, pinAccepted: bool) returns (settled: Settled)
    ensures settled == SettleAll(c, answers, pinAccepted)
  {
    var sleepLoopCounter, simUnlockPerformed := c.initMaxRetry, false;
    var actions: seq<Action> := [ReadStatus];
    var reading := GetStatus(c, answers(0));
    if reading.Err? {
      return Settled(Err(StatusUnreadable(reading.error)), actions);
    }
    var status, n := reading.value, 1;
    while true
      invariant SettleAll(c, answers, pinAccepted)
             == After(actions, Settle(c, answers, pinAccepted, status, simUnlockPerformed, sleepLoopCounter, n))
      decreases !simUnlockPerformed, sleepLoopCounter
    {
      ghost var earlier := actions;
      if status.device == SimLocked {
        if simUnlockPerformed {
          break;
        }
        if !pinAccepted {
          settled := Settled(Err(PinVerificationFailed), actions + [VerifyPin]);
          return;
        }
        reading := GetStatus(c, answers(n));
        actions := actions + [VerifyPin, ReadStatus];
        if reading.Err? {
          return Settled(Err(StatusUnreadable(reading.error)), actions);
        }
        simUnlockPerformed := true;
        AfterAfter(earlier, [VerifyPin, ReadStatus],
                   Settle(c, answers, pinAccepted, reading.value, true, sleepLoopCounter, n + 1));
      } else if status.device == Ready || sleepLoopCounter == 0 {
        break;
      } else {
        sleepLoopCounter := sleepLoopCounter - 1;
        reading := GetStatus(c, answers(n));
        actions := actions + [Sleep, ReadStatus];
        if reading.Err? {
          return Settled(Err(StatusUnreadable(reading.error)), actions);
        }
        AfterAfter(earlier, [Sleep, ReadStatus],
                   Settle(c, answers, pinAccepted, reading.value, simUnlockPerformed, sleepLoopCounter, n + 1));
      }
      status, n := reading.value, n + 1;
    }
    AfterEnd(actions, Ok(status), []);
    settled := Settled(Ok(status), actions);
  }

  function Count(actions: seq<Action>, a: Action): nat {
    if actions == [] then 0 else (if actions[0] == a then 1 else 0) + Count(actions[1..], a)
  }

  lemma CountTwo(a: Action, b: Action, rest: seq<Action>, x: Action)
    ensures Count([a, b] + rest, x) == (if a == x then 1 else 0) + (if b == x then 1 else 0) + Count(rest, x)
  {
    assert ([a, b] + rest)[1..] == [b] + rest;
    assert ([b] + rest)[1..] == rest;
  }

  lemma CountOne(a: Action, rest: seq<Action>, x: Action)
    ensures Count([a] + rest, x) == (if a == x then 1 else 0) + Count(rest, x)
  {
    assert ([a] + rest)[1..] == rest;
  }

  /** A status that the loop may end with, by what it has done: all it could about the SIM or the network. */
  predicate IsFinal(status: Status, actions: seq<Action>, verifications: nat, sleeps: nat) {
    || status.device == Ready
    || (status.device == SimLocked && Count(actions, VerifyPin) == verifications)
    || ((status.device == LteNotConnected || status.device == InternetUnreachable) && Count(actions, Sleep) == sleeps)
  }

  /** What settling takes at most, and how it can end. */
  predicate IsBounded(s: Settled, verifications: nat, retries: nat) {
    && Count(s.actions, VerifyPin) <= verifications
    && Count(s.actions, ReadStatus) <= retries + verifications
    && Count(s.actions, Sleep) <= retries
    && (s.result.Ok? ==> IsFinal(s.result.value, s.actions, verifications, retries))
  }

  lemma BoundedBefore(a: Action, s: Settled, verifications: nat, retries: nat)
    requires IsBounded(s, verifications, retries)
    ensures a == VerifyPin ==> IsBounded(After([a, ReadStatus], s), verifications + 1, retries)
    ensures a == Sleep ==> IsBounded(After([a, ReadStatus], s), verifications, retries + 1)
  {
    CountTwo(a, ReadStatus, s.actions, VerifyPin);
    CountTwo(a, ReadStatus, s.actions, ReadStatus);
    CountTwo(a, ReadStatus, s.actions, Sleep);
  }

  lemma BoundedUnread(a: Action, s: Settled, verifications: nat, retries: nat)
    requires s.result.Err? && (s.actions == [a, ReadStatus] || s.actions == [a])
    requires (a == VerifyPin && verifications > 0) || (a == Sleep && retries > 0)
    ensures IsBounded(s, verifications, retries)
  {
    CountFew(a, VerifyPin);
    CountFew(a, ReadStatus);
    CountFew(a, Sleep);
  }

  lemma CountFew(a: Action, x: Action)
    ensures Count([a], x) == if a == x then 1 else 0
    ensures Count([a, ReadStatus], x) == (if a == x then 1 else 0) + (if x == ReadStatus then 1 else 0)
  {
    CountOne(a, [], x);
    CountTwo(a, ReadStatus, [], x);
    Empty([a]);
    Empty([a, ReadStatus]);
  }

  lemma {:induction false} SettleBounds(c: Config, answers: nat -> Probes, pinAccepted: bool,
                                        status: Status, unlocked: bool, retries: nat, n: nat)
    ensures IsBounded(Settle(c, answers, pinAccepted, status, unlocked, retries, n), if unlocked then 0 else 1, retries)
    decreases if unlocked then 0 else 1, retries
  {
    var s, reading := Settle(c, answers, pinAccepted, status, unlocked, retries, n), GetStatus(c, answers(n));
    if status.device == SimLocked && !unlocked {
      if !pinAccepted || reading.Err? {
        BoundedUnread(VerifyPin, s, 1, retries);
      } else {
        SettleBounds(c, answers, pinAccepted, reading.value, true, retries, n + 1);
        BoundedBefore(VerifyPin, Settle(c, answers, pinAccepted, reading.value, true, retries, n + 1), 0, retries);
      }
    } else if status.device != SimLocked && status.device != Ready && retries > 0 {
      var verifications := if unlocked then 0 else 1;
      if reading.Err? {
        BoundedUnread(Sleep, s, verifications, retries);
      } else {
        SettleBounds(c, answers, pinAccepted, reading.value, unlocked, retries - 1, n + 1);
        BoundedBefore(Sleep, Settle(c, answers, pinAccepted, reading.value, unlocked, retries - 1, n + 1),
                      verifications, retries - 1);
      }
    }
  }

  /**
    Whatever the status requests answer, the SIM PIN is submitted at most once and the status read at
    most two times more than there are retries; and the loop ends without an error only when the
    device is ready, still locked after a PIN verification, or not connected after as many sleeps as
    there are retries.
   */
  lemma InitialisationIsBounded(c: Config, answers: nat -> Probes, pinAccepted: bool)
    ensures var s := SettleAll(c, answers, pinAccepted);
            && Count(s.actions, VerifyPin) <= 1
            && Count(s.actions, ReadStatus) <= c.initMaxRetry + 2
            && Count(s.actions, Sleep) <= c.initMaxRetry
            && (s.result.Ok? ==> IsFinal(s.result.value, s.actions, 1, c.initMaxRetry) && IsProbed(c, s.result.value))
  {
    var reading := GetStatus(c, answers(0));
    CountOne(ReadStatus, [], ReadStatus);
    CountOne(ReadStatus, [], VerifyPin);
    CountOne(ReadStatus, [], Sleep);
    Empty([ReadStatus]);
    if reading.Ok? {
      SettleBounds(c, answers, pinAccepted, reading.value, false, c.initMaxRetry, 1);
      SettledIsProbed(c, answers, pinAccepted, reading.value, false, c.initMaxRetry, 1);
      var rest := Settle(c, answers, pinAccepted, reading.value, false, c.initMaxRetry, 1);
      CountOne(ReadStatus, rest.actions, ReadStatus);
      CountOne(ReadStatus, rest.actions, VerifyPin);
      CountOne(ReadStatus, rest.actions, Sleep);
    }
  }

  lemma {:induction false} SettledIsProbed(c: Config, answers: nat -> Probes, pinAccepted: bool,
                                           status: Status, unlocked: bool, retries: nat, n: nat)
    requires IsProbed(c, status)
    ensures var s := Settle(c, answers, pinAccepted, status, unlocked, retries, n);
            s.result.Ok? ==> IsProbed(c, s.result.value)
    decreases if unlocked then 0 else 1, retries
  {
    var reading := GetStatus(c, answers(n));
    if reading.Ok? {
      assert IsProbed(c, reading.value);
      if status.device == SimLocked && !unlocked {
        SettledIsProbed(c, answers, pinAccepted, reading.value, true, retries, n + 1);
      } else if retries > 0 {
        SettledIsProbed(c, answers, pinAccepted, reading.value, unlocked, retries - 1, n + 1);
      }
    }
  }

  // ---------- What is done next ----------

  /**
    What start-up does next, by what it has done: read the status at first, after a sleep and after a
    PIN that is accepted; then verify the PIN of a locked SIM once, and sleep as often as there are
    retries while there is no network; and otherwise nothing.
   */
  function Next(c: Config, answers: nat -> Probes, pinAccepted: bool, done: seq<Action>): (next: Option<Action>) {
    if done == [] then Some(ReadStatus)
    else match done[|done| - 1]
      case Sleep => Some(ReadStatus)
      case VerifyPin => if pinAccepted then Some(ReadStatus) else None
      case ReadStatus =>
        var reading := LastReading(c, answers, done);
        if reading.Err? || reading.value.device == Ready then None
        else if reading.value.device == SimLocked then if VerifyPin in done then None else Some(VerifyPin)
        else if Count(done, Sleep) < c.initMaxRetry then Some(Sleep) else None
  }

  /** The answer to the last of the status readings. */
  function LastReading(c: Config, answers: nat -> Probes, done: seq<Action>): Result<Status, StatusError> {
    var n := Count(done, ReadStatus);
    GetStatus(c, answers(if n == 0 then 0 else n - 1))
  }

  /** What start-up ends with, by what it has done. */
  function Ending(c: Config, answers: nat -> Probes, done: seq<Action>): Result<Status, InitError>
    requires done != []
  {
    if done[|done| - 1] == VerifyPin then Err(PinVerificationFailed)
    else match LastReading(c, answers, done)
      case Err(e) => Err(StatusUnreadable(e))
      case Ok(status) => Ok(status)
  }

  /** From some action on, each is the next one, and nothing comes after the last. */
  ghost predicate IsCourse(c: Config, answers: nat -> Probes, pinAccepted: bool, from: nat, actions: seq<Action>) {
    && (forall i :: from <= i < |actions| ==> Next(c, answers, pinAccepted, actions[..i]) == Some(actions[i]))
    && Next(c, answers, pinAccepted, actions) == None
  }

  lemma {:induction false} CountAppend(a: seq<Action>, b: seq<Action>, x: Action)
    ensures Count(a + b, x) == Count(a, x) + Count(b, x)
  {
    Empty(b);
    if a != [] {
      AppendStep(a, b);
      CountAppend(a[1..], b, x);
    }
  }

  lemma {:induction false} CountNone(a: seq<Action>, x: Action)
    ensures x in a <==> Count(a, x) > 0
  {
    if a != [] {
      CountNone(a[1..], x);
    }
  }

  /** What has been done before a status reading, as the loop's variables say it. */
  ghost predicate HasDone(c: Config, answers: nat -> Probes, done: seq<Action>,
                          status: Status, unlocked: bool, retries: nat, n: nat) {
    && done != [] && done[|done| - 1] == ReadStatus && Count(done, ReadStatus) == n > 0
    && GetStatus(c, answers(n - 1)) == Ok(status)
    && (unlocked <==> VerifyPin in done) && Count(done, Sleep) + retries == c.initMaxRetry
  }

  lemma OneStep(done: seq<Action>, a: Action)
    ensures Count(done + [a], ReadStatus) == Count(done, ReadStatus) + if a == ReadStatus then 1 else 0
    ensures Count(done + [a], Sleep) == Count(done, Sleep) + if a == Sleep then 1 else 0
    ensures VerifyPin in done + [a] <==> VerifyPin in done || a == VerifyPin
  {
    CountAppend(done, [a], ReadStatus);
    CountAppend(done, [a], Sleep);
    CountOne(a, [], ReadStatus);
    CountOne(a, [], Sleep);
    Empty([a]);
  }

  lemma TwoSteps(done: seq<Action>, a: Action, b: Action)
    ensures done + [a, b] == done + [a] + [b]
    ensures (done + [a, b])[..|done|] == done && (done + [a, b])[..|done| + 1] == done + [a]
  {
  }

  /** A course from two actions later on, with those two, is one from here on. */
  lemma CourseBefore(c: Config, answers: nat -> Probes, pinAccepted: bool, done: seq<Action>, a: Action, b: Action,
                     rest: seq<Action>)
    requires Next(c, answers, pinAccepted, done) == Some(a) && Next(c, answers, pinAccepted, done + [a]) == Some(b)
    requires IsCourse(c, answers, pinAccepted, |done| + 2, done + [a, b] + rest)
    ensures IsCourse(c, answers, pinAccepted, |done|, done + ([a, b] + rest))
  {
    var all := done + [a, b] + rest;
    Associative(done, [a, b], rest);
    TwoSteps(done, a, b);
    assert all[..|done|] == done && all[..|done| + 1] == done + [a];
    assert all[|done|] == a && all[|done| + 1] == b;
  }

  /** What is still done makes up a course to its end, whose result is that of the last action. */
  ghost predicate IsWholeCourse(c: Config, answers: nat -> Probes, pinAccepted: bool, done: seq<Action>, s: Settled) {
    && IsCourse(c, answers, pinAccepted, |done|, done + s.actions)
    && done + s.actions != [] && Ending(c, answers, done + s.actions) == s.result
  }

  lemma WholeBefore(c: Config, answers: nat -> Probes, pinAccepted: bool, done: seq<Action>, a: Action, s: Settled)
    requires Next(c, answers, pinAccepted, done) == Some(a)
    requires Next(c, answers, pinAccepted, done + [a]) == Some(ReadStatus)
    requires IsWholeCourse(c, answers, pinAccepted, done + [a, ReadStatus], s)
    ensures IsWholeCourse(c, answers, pinAccepted, done, After([a, ReadStatus], s))
  {
    CourseBefore(c, answers, pinAccepted, done, a, ReadStatus, s.actions);
    Associative(done, [a, ReadStatus], s.actions);
  }

  lemma WholeNow(c: Config, answers: nat -> Probes, pinAccepted: bool, done: seq<Action>, s: Settled)
    requires done != [] && s.actions == [] && Next(c, answers, pinAccepted, done) == None
    requires Ending(c, answers, done) == s.result
    ensures IsWholeCourse(c, answers, pinAccepted, done, s)
  {
    Empty(done);
  }

  lemma WholeRefused(c: Config, answers: nat -> Probes, done: seq<Action>, s: Settled)
    requires Next(c, answers, false, done) == Some(VerifyPin)
    requires s.actions == [VerifyPin] && s.result == Err(PinVerificationFailed)
    ensures IsWholeCourse(c, answers, false, done, s)
  {
    assert (done + [VerifyPin])[..|done|] == done;
  }

  lemma WholeUnread(c: Config, answers: nat -> Probes, pinAccepted: bool, done: seq<Action>, a: Action, s: Settled)
    requires IsCourse(c, answers, pinAccepted, |done|, done + [a, ReadStatus])
    requires s.actions == [a, ReadStatus] && s.result == Ending(c, answers, done + [a, ReadStatus])
    ensures IsWholeCourse(c, answers, pinAccepted, done, s)
  {
  }

  lemma VerifyingIsCourse(c: Config, answers: nat -> Probes, done: seq<Action>, status: Status, retries: nat, n: nat)
    requires HasDone(c, answers, done, status, false, retries, n) && status.device == SimLocked
    requires var reading := GetStatus(c, answers(n));
             reading.Ok? ==> IsWholeCourse(c, answers, true, done + [VerifyPin, ReadStatus],
                                           Settle(c, answers, true, reading.value, true, retries, n + 1))
    ensures IsWholeCourse(c, answers, true, done, Settle(c, answers, true, status, false, retries, n))
  {
    var reading := GetStatus(c, answers(n));
    NextAfter(c, answers, true, done, status, false, retries, n);
    SettleMore(c, answers, true, done, VerifyPin, status, false, retries, n);
    if reading.Ok? {
      WholeBefore(c, answers, true, done, VerifyPin, Settle(c, answers, true, reading.value, true, retries, n + 1));
    } else {
      WholeUnread(c, answers, true, done, VerifyPin, Settle(c, answers, true, status, false, retries, n));
    }
  }

  lemma SleepingIsCourse(c: Config, answers: nat -> Probes, pinAccepted: bool, done: seq<Action>,
                         status: Status, unlocked: bool, retries: nat, n: nat)
    requires HasDone(c, answers, done, status, unlocked, retries, n) && retries > 0
    requires status.device == LteNotConnected || status.device == InternetUnreachable
    requires var reading := GetStatus(c, answers(n));
             reading.Ok? ==> IsWholeCourse(c, answers, pinAccepted, done + [Sleep, ReadStatus],
                                           Settle(c, answers, pinAccepted, reading.value, unlocked, retries - 1, n + 1))
    ensures IsWholeCourse(c, answers, pinAccepted, done,
                          Settle(c, answers, pinAccepted, status, unlocked, retries, n))
  {
    var reading := GetStatus(c, answers(n));
    NextAfter(c, answers, pinAccepted, done, status, unlocked, retries, n);
    SettleMore(c, answers, pinAccepted, done, Sleep, status, unlocked, retries, n);
    if reading.Ok? {
      WholeBefore(c, answers, pinAccepted, done, Sleep,
                  Settle(c, answers, pinAccepted, reading.value, unlocked, retries - 1, n + 1));
    } else {
      WholeUnread(c, answers, pinAccepted, done, Sleep, Settle(c, answers, pinAccepted, status, unlocked, retries, n));
    }
  }

  lemma RefusedIsCourse(c: Config, answers: nat -> Probes, done: seq<Action>, status: Status, retries: nat, n: nat)
    requires HasDone(c, answers, done, status, false, retries, n) && status.device == SimLocked
    ensures IsWholeCourse(c, answers, false, done, Settle(c, answers, false, status, false, retries, n))
  {
    NextAfter(c, answers, false, done, status, false, retries, n);
    WholeRefused(c, answers, done, Settle(c, answers, false, status, false, retries, n));
  }

  lemma EndIsCourse(c: Config, answers: nat -> Probes, pinAccepted: bool, done: seq<Action>,
                    status: Status, unlocked: bool, retries: nat, n: nat)
    requires HasDone(c, answers, done, status, unlocked, retries, n)
    requires status.device == Ready || (if status.device == SimLocked then unlocked else retries == 0)
    ensures IsWholeCourse(c, answers, pinAccepted, done,
                          Settle(c, answers, pinAccepted, status, unlocked, retries, n))
  {
    NextAfter(c, answers, pinAccepted, done, status, unlocked, retries, n);
    WholeNow(c, answers, pinAccepted, done, Settle(c, answers, pinAccepted, status, unlocked, retries, n));
  }

  /** What is next and what an ending comes to, by the status read last. */
  lemma NextAfter(c: Config, answers: nat -> Probes, pinAccepted: bool, done: seq<Action>,
                  status: Status, unlocked: bool, retries: nat, n: nat)
    requires HasDone(c, answers, done, status, unlocked, retries, n)
    ensures Next(c, answers, pinAccepted, done)
         == (match status.device {
               case Ready => None
               case SimLocked => if unlocked then None else Some(VerifyPin)
               case _ => if retries == 0 then None else Some(Sleep)
             })
    ensures Ending(c, answers, done) == Ok(status)
  {
    LastReadingIs(c, answers, done, n - 1);
  }

  lemma {:induction false} SettleIsCourse(c: Config, answers: nat -> Probes, pinAccepted: bool, done: seq<Action>,
                                          status: Status, unlocked: bool, retries: nat, n: nat)
    requires HasDone(c, answers, done, status, unlocked, retries, n)
    ensures IsWholeCourse(c, answers, pinAccepted, done,
                          Settle(c, answers, pinAccepted, status, unlocked, retries, n))
    decreases if unlocked then 0 else 1, retries
  {
    var reading := GetStatus(c, answers(n));
    NextAfter(c, answers, pinAccepted, done, status, unlocked, retries, n);
    if status.device == SimLocked && !unlocked {
      if !pinAccepted {
        RefusedIsCourse(c, answers, done, status, retries, n);
      } else {
        if reading.Ok? {
          SettleMore(c, answers, pinAccepted, done, VerifyPin, status, unlocked, retries, n);
          SettleIsCourse(c, answers, pinAccepted, done + [VerifyPin, ReadStatus], reading.value, true, retries, n + 1);
        }
        VerifyingIsCourse(c, answers, done, status, retries, n);
      }
    } else if status.device != SimLocked && status.device != Ready && retries > 0 {
      if reading.Ok? {
        SettleMore(c, answers, pinAccepted, done, Sleep, status, unlocked, retries, n);
        SettleIsCourse(c, answers, pinAccepted, done + [Sleep, ReadStatus], reading.value, unlocked, retries - 1,
                       n + 1);
      }
      SleepingIsCourse(c, answers, pinAccepted, done, status, unlocked, retries, n);
    } else {
      EndIsCourse(c, answers, pinAccepted, done, status, unlocked, retries, n);
    }
  }

  /** One more action and the status reading behind it. */
  lemma SettleMore(c: Config, answers: nat -> Probes, pinAccepted: bool, done: seq<Action>, a: Action,
                   status: Status, unlocked: bool, retries: nat, n: nat)
    requires HasDone(c, answers, done, status, unlocked, retries, n)
    requires Next(c, answers, pinAccepted, done) == Some(a) && a != ReadStatus && (a == VerifyPin ==> pinAccepted)
    requires a == Sleep ==> retries > 0
    ensures Next(c, answers, pinAccepted, done + [a]) == Some(ReadStatus)
    ensures GetStatus(c, answers(n)).Ok? ==>
              HasDone(c, answers, done + [a, ReadStatus], GetStatus(c, answers(n)).value, unlocked || a == VerifyPin,
                      if a == Sleep then retries - 1 else retries, n + 1)
    ensures GetStatus(c, answers(n)).Err? ==>
              && IsCourse(c, answers, pinAccepted, |done|, done + [a, ReadStatus])
              && Ending(c, answers, done + [a, ReadStatus]) == Err(StatusUnreadable(GetStatus(c, answers(n)).error))
  {
    OneStep(done, a);
    OneStep(done + [a], ReadStatus);
    TwoSteps(done, a, ReadStatus);
    if GetStatus(c, answers(n)).Err? {
      UnreadIsCourse(c, answers, pinAccepted, done, a, n);
    }
  }

  lemma UnreadIsCourse(c: Config, answers: nat -> Probes, pinAccepted: bool, done: seq<Action>, a: Action, n: nat)
    requires Next(c, answers, pinAccepted, done) == Some(a) && Count(done + [a, ReadStatus], ReadStatus) == n + 1
    requires Next(c, answers, pinAccepted, done + [a]) == Some(ReadStatus)
    requires GetStatus(c, answers(n)).Err?
    ensures IsCourse(c, answers, pinAccepted, |done|, done + [a, ReadStatus])
    ensures Ending(c, answers, done + [a, ReadStatus]) == Err(StatusUnreadable(GetStatus(c, answers(n)).error))
  {
    var all := done + [a, ReadStatus];
    NothingBehindUnread(c, answers, pinAccepted, all, n);
    Empty(all);
    Empty([a, ReadStatus]);
    CourseBefore(c, answers, pinAccepted, done, a, ReadStatus, []);
  }

  lemma NothingBehindUnread(c: Config, answers: nat -> Probes, pinAccepted: bool, done: seq<Action>, n: nat)
    requires done != [] && done[|done| - 1] == ReadStatus && Count(done, ReadStatus) == n + 1
    requires GetStatus(c, answers(n)).Err?
    ensures IsCourse(c, answers, pinAccepted, |done|, done)
    ensures Ending(c, answers, done) == Err(StatusUnreadable(GetStatus(c, answers(n)).error))
  {
    LastReadingIs(c, answers, done, n);
    UnreadIsLast(c, answers, pinAccepted, done);
  }

  lemma LastReadingIs(c: Config, answers: nat -> Probes, done: seq<Action>, n: nat)
    requires Count(done, ReadStatus) == n + 1
    ensures LastReading(c, answers, done) == GetStatus(c, answers(n))
  {
  }

  lemma UnreadIsLast(c: Config, answers: nat -> Probes, pinAccepted: bool, done: seq<Action>)
    requires done != [] && done[|done| - 1] == ReadStatus && LastReading(c, answers, done).Err?
    ensures Next(c, answers, pinAccepted, done) == None
    ensures Ending(c, answers, done) == Err(StatusUnreadable(LastReading(c, answers, done).error))
  {
  }

  /**
    Start-up, for all answers: every action is the one that is next, nothing is next behind the last,
    and the result is that of the last action.
   */
  lemma SettlingIsCourse(c: Config, answers: nat -> Probes, pinAccepted: bool)
    ensures var s := SettleAll(c, answers, pinAccepted);
            && IsCourse(c, answers, pinAccepted, 0, s.actions)
            && s.actions != [] && s.result == Ending(c, answers, s.actions)
  {
    var s, reading := SettleAll(c, answers, pinAccepted), GetStatus(c, answers(0));
    OneStep([], ReadStatus);
    Empty([ReadStatus]);
    if reading.Ok? {
      SettleIsCourse(c, answers, pinAccepted, [ReadStatus], reading.value, false, c.initMaxRetry, 1);
    } else {
      NothingBehindUnread(c, answers, pinAccepted, [ReadStatus], 0);
    }
    ReadingIsFirst(c, answers, pinAccepted, s.actions);
  }

  lemma ReadingIsFirst(c: Config, answers: nat -> Probes, pinAccepted: bool, actions: seq<Action>)
    requires [ReadStatus] <= actions && IsCourse(c, answers, pinAccepted, 1, actions)
    ensures IsCourse(c, answers, pinAccepted, 0, actions)
  {
    assert actions[..0] == [] && actions[0] == ReadStatus;
    assert Next(c, answers, pinAccepted, []) == Some(ReadStatus);
  }

  // ---------- Failing ----------

  /** One of some status readings that are taken cannot be read. */
  ghost predicate SomeUnreadable(c: Config, answers: nat -> Probes, from: nat, count: nat) {
    exists k :: from <= k < from + count && GetStatus(c, answers(k)).Err?
  }

  lemma UnreadableFirst(c: Config, answers: nat -> Probes, from: nat, count: nat)
    ensures SomeUnreadable(c, answers, from, count + 1)
            <==> GetStatus(c, answers(from)).Err? || SomeUnreadable(c, answers, from + 1, count)
  {
    if SomeUnreadable(c, answers, from + 1, count) {
      var k :| from + 1 <= k < from + 1 + count && GetStatus(c, answers(k)).Err?;
    }
  }

  /** The settling fails by a reading that it takes, or by a verification that it takes. */
  ghost predicate FailsByAnswers(c: Config, answers: nat -> Probes, pinAccepted: bool, from: nat, s: Settled) {
    s.result.Err? <==>
      SomeUnreadable(c, answers, from, Count(s.actions, ReadStatus)) || (!pinAccepted && VerifyPin in s.actions)
  }

  lemma FailsBefore(c: Config, answers: nat -> Probes, pinAccepted: bool, from: nat, a: Action, s: Settled)
    requires GetStatus(c, answers(from)).Ok? && a != ReadStatus && (a == VerifyPin ==> pinAccepted)
    requires FailsByAnswers(c, answers, pinAccepted, from + 1, s)
    ensures FailsByAnswers(c, answers, pinAccepted, from, After([a, ReadStatus], s))
  {
    CountTwo(a, ReadStatus, s.actions, ReadStatus);
    UnreadableFirst(c, answers, from, Count(s.actions, ReadStatus));
  }

  lemma FailsNow(c: Config, answers: nat -> Probes, pinAccepted: bool, from: nat, a: Action, s: Settled)
    requires GetStatus(c, answers(from)).Err? && a != ReadStatus
    requires s.actions == [a, ReadStatus] && s.result.Err?
    ensures FailsByAnswers(c, answers, pinAccepted, from, s)
  {
    CountTwo(a, ReadStatus, [], ReadStatus);
    Empty([a, ReadStatus]);
    assert SomeUnreadable(c, answers, from, Count(s.actions, ReadStatus));
  }

  lemma {:induction false} SettleFails(c: Config, answers: nat -> Probes, pinAccepted: bool,
                                       status: Status, unlocked: bool, retries: nat, n: nat)
    ensures FailsByAnswers(c, answers, pinAccepted, n,
                           Settle(c, answers, pinAccepted, status, unlocked, retries, n))
    decreases if unlocked then 0 else 1, retries
  {
    var s := Settle(c, answers, pinAccepted, status, unlocked, retries, n);
    var reading := GetStatus(c, answers(n));
    if status.device == SimLocked && !unlocked {
      if pinAccepted && reading.Err? {
        FailsNow(c, answers, pinAccepted, n, VerifyPin, s);
      } else if pinAccepted {
        SettleFails(c, answers, pinAccepted, reading.value, true, retries, n + 1);
        FailsBefore(c, answers, pinAccepted, n, VerifyPin,
                    Settle(c, answers, pinAccepted, reading.value, true, retries, n + 1));
      }
    } else if status.device != SimLocked && status.device != Ready && retries > 0 {
      if reading.Err? {
        FailsNow(c, answers, pinAccepted, n, Sleep, s);
      } else {
        SettleFails(c, answers, pinAccepted, reading.value, unlocked, retries - 1, n + 1);
        FailsBefore(c, answers, pinAccepted, n, Sleep,
                    Settle(c, answers, pinAccepted, reading.value, unlocked, retries - 1, n + 1));
      }
    }
  }

  /**
    Start-up fails if and only if a status reading that it takes cannot be read, or a PIN verification
    that it takes is refused; with every reading readable and the PIN accepted it ends with a status.
   */
  lemma SettlingFailsExactly(c: Config, answers: nat -> Probes, pinAccepted: bool)
    ensures var s := SettleAll(c, answers, pinAccepted);
            s.result.Err? <==> SomeUnreadable(c, answers, 0, Count(s.actions, ReadStatus))
                               || (!pinAccepted && VerifyPin in s.actions)
    ensures (forall k: nat :: GetStatus(c, answers(k)).Ok?) && pinAccepted
            ==> SettleAll(c, answers, pinAccepted).result.Ok?
  {
    var reading := GetStatus(c, answers(0));
    if reading.Err? {
      CountOne(ReadStatus, [], ReadStatus);
      Empty([ReadStatus]);
    } else {
      SettleFails(c, answers, pinAccepted, reading.value, false, c.initMaxRetry, 1);
      var rest := Settle(c, answers, pinAccepted, reading.value, false, c.initMaxRetry, 1);
      CountOne(ReadStatus, rest.actions, ReadStatus);
      UnreadableFirst(c, answers, 0, Count(rest.actions, ReadStatus));
    }
  }

  /** A SIM locked at first, then a network that never comes up. */
  function Worst(n: nat): Probes {
    Probes(Ok(if n == 0 then "not_verified" else "verified"), Ok("none"), false, false, false, {})
  }

  lemma {:induction false} WorstSettles(c: Config, status: Status, retries: nat, n: nat)
    requires status.device == LteNotConnected && n > 0
    ensures Count(Settle(c, Worst, true, status, true, retries, n).actions, ReadStatus) == retries
    decreases retries
  {
    if retries > 0 {
      var next := GetStatus(c, Worst(n)).value;
      WorstSettles(c, next, retries - 1, n + 1);
      CountTwo(Sleep, ReadStatus, Settle(c, Worst, true, next, true, retries - 1, n + 1).actions, ReadStatus);
    }
  }

  /** The bound on status reads is reached. */
  lemma BoundIsReached(c: Config)
    ensures Count(SettleAll(c, Worst, true).actions, ReadStatus) == c.initMaxRetry + 2
  {
    var locked, next := GetStatus(c, Worst(0)).value, GetStatus(c, Worst(1)).value;
    WorstSettles(c, next, c.initMaxRetry, 2);
    var rest := Settle(c, Worst, true, next, true, c.initMaxRetry, 2);
    CountTwo(VerifyPin, ReadStatus, rest.actions, ReadStatus);
    CountOne(ReadStatus, [VerifyPin, ReadStatus] + rest.actions, ReadStatus);
    assert Settle(c, Worst, true, locked, false, c.initMaxRetry, 1) == After([VerifyPin, ReadStatus], rest);
  }
}
