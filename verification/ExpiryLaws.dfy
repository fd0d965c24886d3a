/** What a tick says to whom, what a run's SMSs come from, and how time passes in a run. */
module ExpiryLaws {
  import opened Configuration
  import opened PhoneNumbers
  import opened Sequences
  import opened Text
  import opened TunnelReader
  import opened Tunnels
  import opened Requests
  import opened RequestLaws
  import opened Expiry
  import opened Daemons
  import opened RunLaws
  import opened RunHistory

  // ---------- What a tick says ----------

  /** The tunnel is older than the timeout. */
  predicate IsOverdue(c: Config, t: Tunnel, now: nat) {
    t.created + c.tunnelTimeoutSec * 1_000_000_000 < now
  }

  /** The positions, in their order, at which a traversal meets the overdue tunnels. */
  ghost predicate AreOverdue(c: Config, tunnels: Registry, order: seq<u32>, now: nat, at: seq<nat>) {
    && (forall i, j :: 0 <= i < j < |at| ==> at[i] < at[j])
    && (forall i :: 0 <= i < |at| ==> at[i] < |order|)
    && (forall k :: 0 <= k < |order| ==> order[k] in tunnels && (k in at <==> IsOverdue(c, tunnels[order[k]], now)))
  }

  /** The SMS says that the tunnel of a reference is closed, to the first user of the tunnel's user name. */
  ghost predicate IsExpirySms(c: Config, tunnels: Registry, r: u32, sms: Outgoing) {
    && r in tunnels && sms.body == Body.Expiry(r)
    && exists i: nat :: IsFirstOfName(c.users, tunnels[r].user, i) && c.users[i].phone == sms.to
  }

  /** The first user of the tunnel's user name has an odd number of more than twelve characters besides plus signs. */
  ghost predicate HasOddLongNumber(c: Config, t: Tunnel) {
    exists i: nat :: IsFirstOfName(c.users, t.user, i)
      && |Without(c.users[i].phone, '+')| > 12 && |Without(c.users[i].phone, '+')| % 2 == 1
  }

  ghost predicate IsUntellable(c: Config, tunnels: Registry, r: u32, portFails: set<u32>) {
    r in tunnels && r !in portFails && HasOddLongNumber(c, tunnels[r])
  }

  /** The same, by the user that is found. */
  lemma UntellableIsPanic(c: Config, tunnels: Registry, r: u32, portFails: set<u32>)
    requires r in tunnels
    ensures IsUntellable(c, tunnels, r, portFails) <==> NoticePanics(c, tunnels, r, portFails)
  {
    var name := tunnels[r].user;
    if UserOfName(c.users, name).Some? {
      var i := FoundIsFirst(c.users, name);
      EncodingPanics(c.users[i].phone);
      assert forall j: nat :: IsFirstOfName(c.users, name, j) ==> j == i;
    }
  }

  lemma {:induction false} ExpiredPositions(c: Config, tunnels: Registry, order: seq<u32>, n: nat, now: nat)
    returns (at: seq<nat>)
    requires n <= |order| && forall i :: 0 <= i < |order| ==> order[i] in tunnels
    requires forall r :: r in tunnels ==> tunnels[r].created <= now
    ensures AreOverdue(c, tunnels, order[..n], now, at)
    ensures IsPicked(ExpiredIn(c, tunnels, order, n, now), order, at)
  {
    at := [];
    if n > 0 {
      var earlier := ExpiredPositions(c, tunnels, order, n - 1, now);
      var expired := IsExpired(c, tunnels[order[n - 1]], now);
      at := if expired then earlier + [n - 1] else earlier;
      OverdueNext(c, tunnels, order, n, now, earlier);
      Empty(ExpiredIn(c, tunnels, order, n - 1, now));
      PickedNext(ExpiredIn(c, tunnels, order, n - 1, now), order, earlier, n - 1);
    }
  }

  lemma PickedNext(part: seq<u32>, order: seq<u32>, at: seq<nat>, next: nat)
    requires IsPicked(part, order, at) && next < |order|
    ensures IsPicked(part + [order[next]], order, at + [next])
  {
  }

  lemma OverdueNext(c: Config, tunnels: Registry, order: seq<u32>, n: nat, now: nat, earlier: seq<nat>)
    requires 0 < n <= |order| && forall i :: 0 <= i < |order| ==> order[i] in tunnels
    requires tunnels[order[n - 1]].created <= now
    requires AreOverdue(c, tunnels, order[..n - 1], now, earlier)
    ensures AreOverdue(c, tunnels, order[..n], now,
                       if IsExpired(c, tunnels[order[n - 1]], now) then earlier + [n - 1] else earlier)
  {
    assert n - 1 !in earlier;
    forall k | 0 <= k < n - 1 ensures k in earlier <==> IsOverdue(c, tunnels[order[k]], now) {
      assert order[..n - 1][k] == order[k];
    }
  }

  /**
    A tick in a sound state, exactly. The overdue tunnels are told of in the order in which the
    traversal meets them, each to the first user of its user name. The first of them that cannot be
    told of ends the daemon, and there is one exactly when not all are told of.
   */
  lemma TickTells(c: Config, s: State, e: Event) returns (at: seq<nat>)
    requires Sound(c, s) && Enabled(c, s, e) && e.Tick?
    ensures AreOverdue(c, s.world.tunnels, e.order, e.current, at)
    ensures |Sends(c, s, e)| <= |at|
    ensures forall i :: 0 <= i < |Sends(c, s, e)| ==>
              && IsExpirySms(c, s.world.tunnels, e.order[at[i]], Sends(c, s, e)[i])
              && !IsUntellable(c, s.world.tunnels, e.order[at[i]], e.portFails)
    ensures |Sends(c, s, e)| < |at| ==>
              IsUntellable(c, s.world.tunnels, e.order[at[|Sends(c, s, e)|]], e.portFails)
    ensures Step(c, s, e).running <==> |Sends(c, s, e)| == |at|
  {
    var w := s.world;
    ExpiryIsNotified(c, w, e.order, e.current, e.portFails);
    at := ExpiredPositions(c, w.tunnels, e.order, |e.order|, e.current);
    Whole(e.order);
    var expired := ExpiredIn(c, w.tunnels, e.order, |e.order|, e.current);
    var n := BeforePanic(c, w.tunnels, expired, e.portFails);
    PrefixIsNotified(c, w, expired, n);
    SendsAreNotices(c, s, e);
    forall i | 0 <= i < |at|
      ensures IsUntellable(c, w.tunnels, e.order[at[i]], e.portFails)
              <==> NoticePanics(c, w.tunnels, expired[i], e.portFails)
    {
      UntellableIsPanic(c, w.tunnels, expired[i], e.portFails);
    }
  }

  lemma SendsAreNotices(c: Config, s: State, e: Event)
    requires Enabled(c, s, e) && e.Tick?
    ensures forall i :: 0 <= i < |e.order| ==> e.order[i] in s.world.tunnels
    ensures var notices := CleanUpNotices(c, s.world.tunnels, e.order, e.current, e.portFails);
            && |Sends(c, s, e)| == |notices|
            && forall i, r :: 0 <= i < |notices| && IsNoticeOf(c, s.world.tunnels, r, notices[i])
                              ==> IsExpirySms(c, s.world.tunnels, r, Sends(c, s, e)[i])
  {
    ExpiredInOrder(c, s.world.tunnels, e.order, e.current);
  }

  // ---------- What a run says ----------

  lemma SendsGrowOnce(c: Config, s: State, events: seq<Event>, n: nat)
    requires Possible(c, s, events) && n < |events|
    ensures Possible(c, s, events[..n]) && Possible(c, s, events[..n + 1])
    ensures AllSends(c, s, events[..n]) <= AllSends(c, s, events[..n + 1])
  {
    NextEvent(c, s, events, n);
  }

  lemma {:induction false} SendsGrow(c: Config, s: State, events: seq<Event>, n: nat, m: nat)
    requires Possible(c, s, events) && n <= m <= |events|
    ensures Possible(c, s, events[..n]) && Possible(c, s, events[..m])
    ensures AllSends(c, s, events[..n]) <= AllSends(c, s, events[..m])
    decreases m - n
  {
    PossiblePrefix(c, s, events, n);
    if n < m {
      SendsGrowOnce(c, s, events, n);
      SendsGrow(c, s, events, n + 1, m);
      PrefixOfPrefix(AllSends(c, s, events[..n]), AllSends(c, s, events[..n + 1]), AllSends(c, s, events[..m]));
    }
  }

  /** Where the SMSs of an event stand among those of a run. */
  lemma SendsOfEvent(c: Config, s: State, events: seq<Event>, i: nat)
    requires Possible(c, s, events) && i < |events|
    ensures Possible(c, s, events[..i]) && Enabled(c, After(c, s, events[..i]), events[i])
    ensures AllSends(c, s, events[..i]) + Sends(c, After(c, s, events[..i]), events[i]) <= AllSends(c, s, events)
  {
    NextEvent(c, s, events, i);
    SendsGrow(c, s, events, i + 1, |events|);
    Whole(events);
  }

  /** How many SMSs the first `n` events of a run send. */
  ghost function SentWithin(c: Config, s: State, events: seq<Event>, n: nat): nat
    requires Possible(c, s, events) && n <= |events|
  {
    PossiblePrefix(c, s, events, n);
    |AllSends(c, s, events[..n])|
  }

  /** The SMS at position `k` of a run is one of those of its event `i`. */
  ghost predicate IsSentBy(c: Config, s: State, events: seq<Event>, i: nat, k: nat)
    requires Possible(c, s, events)
  {
    i < |events| && SentWithin(c, s, events, i) <= k < SentWithin(c, s, events, i + 1)
  }

  lemma {:induction false} EverySmsHasEvent(c: Config, s: State, events: seq<Event>, n: nat, k: nat) returns (i: nat)
    requires Possible(c, s, events) && n <= |events| && k < SentWithin(c, s, events, n)
    ensures IsSentBy(c, s, events, i, k)
    decreases n
  {
    assert events[..0] == [];
    i := n - 1;
    if k < SentWithin(c, s, events, i) {
      i := EverySmsHasEvent(c, s, events, i, k);
    }
  }

  /**
    Every SMS of a run is the answer to the configured user whose message it comes from, or tells the
    first user of an overdue tunnel's user name of its closing.
   */
  lemma SmsStemsFrom(c: Config, s: State, events: seq<Event>, k: nat) returns (i: nat)
    requires Initial(c, s) && Possible(c, s, events) && k < |AllSends(c, s, events)|
    ensures IsSentBy(c, s, events, i, k) && Possible(c, s, events[..i])
    ensures IsCausedBy(c, After(c, s, events[..i]), events[i], AllSends(c, s, events)[k])
  {
    Whole(events);
    i := EverySmsHasEvent(c, s, events, |events|, k);
    var at := SmsOfEvent(c, s, events, i, k);
    RunIsSound(c, s, events[..i]);
    StepSmsIsCaused(c, After(c, s, events[..i]), events[i], at);
  }

  lemma SmsOfEvent(c: Config, s: State, events: seq<Event>, i: nat, k: nat) returns (at: nat)
    requires Possible(c, s, events) && IsSentBy(c, s, events, i, k)
    ensures Possible(c, s, events[..i]) && Enabled(c, After(c, s, events[..i]), events[i])
    ensures at < |Sends(c, After(c, s, events[..i]), events[i])| && k < |AllSends(c, s, events)|
    ensures Sends(c, After(c, s, events[..i]), events[i])[at] == AllSends(c, s, events)[k]
  {
    NextEvent(c, s, events, i);
    SendsOfEvent(c, s, events, i);
    at := k - |AllSends(c, s, events[..i])|;
    InPrefix(AllSends(c, s, events[..i]), Sends(c, After(c, s, events[..i]), events[i]), AllSends(c, s, events), at);
  }

  lemma InPrefix<T>(a: seq<T>, b: seq<T>, whole: seq<T>, at: nat)
    requires a + b <= whole && at < |b|
    ensures |a| + at < |whole| && whole[|a| + at] == b[at]
  {
    AtLater(a, b, at);
  }

  /** The SMS answers the event's message, or tells of a tunnel that is overdue at the event. */
  ghost predicate IsCausedBy(c: Config, s: State, e: Event, sms: Outgoing) {
    || (e.Received? && sms.to == e.sender && sms.body.Answer? && UserOfPhone(c.users, e.sender).Some?)
    || (e.Tick? && exists r :: r in s.world.tunnels && IsOverdue(c, s.world.tunnels[r], e.current)
                               && IsExpirySms(c, s.world.tunnels, r, sms))
  }

  lemma StepSmsIsCaused(c: Config, s: State, e: Event, k: nat)
    requires Sound(c, s) && Enabled(c, s, e) && k < |Sends(c, s, e)|
    ensures IsCausedBy(c, s, e, Sends(c, s, e)[k])
  {
    if e.Received? {
      RepliesToSender(c, s, e);
    } else {
      TickSmsIsOverdue(c, s, e, k);
    }
  }

  lemma TickSmsIsOverdue(c: Config, s: State, e: Event, k: nat)
    requires Sound(c, s) && Enabled(c, s, e) && e.Tick? && k < |Sends(c, s, e)|
    ensures exists r :: r in s.world.tunnels && IsOverdue(c, s.world.tunnels[r], e.current)
                        && IsExpirySms(c, s.world.tunnels, r, Sends(c, s, e)[k])
  {
    var at := TickTells(c, s, e);
    assert at[k] in at;
  }

  /** Of a tick that the daemon survives, the SMSs and the tunnels that it takes out correspond one to one. */
  ghost predicate TellsOfClosed(c: Config, before: Registry, after: Registry, sends: seq<Outgoing>) {
    && (forall r :: r in before && r !in after ==>
          exists k :: 0 <= k < |sends| && IsExpirySms(c, before, r, sends[k]))
    && (forall k :: 0 <= k < |sends| ==>
          sends[k].body.Expiry? && sends[k].body.reference in before && sends[k].body.reference !in after)
    && (forall k, l :: 0 <= k < l < |sends| ==> sends[k].body != sends[l].body)
  }

  lemma TickTellsOfClosed(c: Config, s: State, e: Event)
    requires Sound(c, s) && Enabled(c, s, e) && e.Tick? && Step(c, s, e).running
    ensures TellsOfClosed(c, s.world.tunnels, Step(c, s, e).world.tunnels, Sends(c, s, e))
  {
    var at := TickTells(c, s, e);
    TickCloses(c, s, e);
    OverdueAreTold(c, s.world.tunnels, Step(c, s, e).world.tunnels, e.order, e.current, at, Sends(c, s, e));
  }

  lemma TickCloses(c: Config, s: State, e: Event)
    requires Sound(c, s) && Enabled(c, s, e) && e.Tick? && Step(c, s, e).running
    ensures forall r :: r in s.world.tunnels ==>
              (r in Step(c, s, e).world.tunnels <==> !IsOverdue(c, s.world.tunnels[r], e.current))
  {
    ExpireFilters(c, s.world, e.current);
  }

  lemma OverdueAreTold(c: Config, before: Registry, after: Registry, order: seq<u32>, now: nat, at: seq<nat>,
                       sends: seq<Outgoing>)
    requires IsOrder(order, before) && AreOverdue(c, before, order, now, at) && |sends| == |at|
    requires forall i :: 0 <= i < |at| ==> IsExpirySms(c, before, order[at[i]], sends[i])
    requires forall r :: r in before ==> (r in after <==> !IsOverdue(c, before[r], now))
    ensures TellsOfClosed(c, before, after, sends)
  {
    forall r | r in before && r !in after
      ensures exists k :: 0 <= k < |sends| && IsExpirySms(c, before, r, sends[k])
    {
      var j :| 0 <= j < |order| && order[j] == r;
      assert j in at;
      var k :| 0 <= k < |at| && at[k] == j;
      assert IsExpirySms(c, before, r, sends[k]);
    }
    forall k | 0 <= k < |sends|
      ensures sends[k].body == Body.Expiry(order[at[k]]) && order[at[k]] in before && order[at[k]] !in after
    {
      assert at[k] in at;
    }
  }

  /** So it is for every tick of a run. */
  lemma RunTellsOfClosed(c: Config, s: State, events: seq<Event>, i: nat)
    requires Initial(c, s) && Possible(c, s, events) && i < |events| && events[i].Tick?
    requires Possible(c, s, events[..i + 1]) && After(c, s, events[..i + 1]).running
    ensures Possible(c, s, events[..i]) && AllSends(c, s, events[..i + 1]) <= AllSends(c, s, events)
    ensures AllSends(c, s, events[..i]) <= AllSends(c, s, events[..i + 1])
    ensures TellsOfClosed(c, After(c, s, events[..i]).world.tunnels, After(c, s, events[..i + 1]).world.tunnels,
                          AllSends(c, s, events[..i + 1])[|AllSends(c, s, events[..i])|..])
  {
    NextEvent(c, s, events, i);
    SendsOfEvent(c, s, events, i);
    RunIsSound(c, s, events[..i]);
    TickTellsOfClosed(c, After(c, s, events[..i]), events[i]);
  }

  // ---------- Time ----------

  /** When the loop is back at waiting after an event. */
  function Ended(e: Event): nat {
    match e
    case Tick(_, _, done, _, _, _) => done
    case Received(_, done, _, _, _) => done
    case ReadingFailed(at) => at
    case ReadingPanicked(at) => at
  }

  lemma StepTakesTime(c: Config, s: State, e: Event)
    requires Enabled(c, s, e)
    ensures s.running && s.now <= e.at <= Ended(e) && Step(c, s, e).now == Ended(e)
    ensures e.Tick? ==> s.now + c.refreshPeriodSec * 1_000_000_000 <= e.at
    ensures Step(c, s, e).running ==> Step(c, s, e).checked == if e.Tick? then e.current else s.checked
  {
  }

  function Ticks(events: seq<Event>): nat {
    if events == [] then 0 else Ticks(events[..|events| - 1]) + if events[|events| - 1].Tick? then 1 else 0
  }

  /** A tick comes no earlier than the refresh period after the end of the event before it. */
  lemma TicksKeepDistance(c: Config, s: State, events: seq<Event>, i: nat)
    requires Possible(c, s, events) && 0 < i < |events|
    ensures Ended(events[i - 1]) <= events[i].at <= Ended(events[i])
    ensures events[i].Tick? ==> Ended(events[i - 1]) + c.refreshPeriodSec * 1_000_000_000 <= events[i].at
  {
    NextEvent(c, s, events, i);
    NextEvent(c, s, events, i - 1);
    StepTakesTime(c, After(c, s, events[..i]), events[i]);
    StepTakesTime(c, After(c, s, events[..i - 1]), events[i - 1]);
  }

  /** A period for each tick. */
  function Periods(events: seq<Event>, period: nat): nat {
    if events == [] then 0
    else Periods(events[..|events| - 1], period) + if events[|events| - 1].Tick? then period else 0
  }

  lemma {:induction false} PeriodsOfTicks(events: seq<Event>, period: nat)
    ensures Periods(events, period) == Ticks(events) * period
  {
    if events != [] {
      PeriodsOfTicks(events[..|events| - 1], period);
      OneMore(Ticks(events[..|events| - 1]), period);
    }
  }

  lemma OneMore(n: nat, period: nat)
    ensures (n + 1) * period == n * period + period
  {
  }

  lemma {:induction false} PeriodsPass(c: Config, s: State, events: seq<Event>)
    requires Possible(c, s, events)
    ensures s.now + Periods(events, c.refreshPeriodSec * 1_000_000_000) <= After(c, s, events).now
    decreases |events|
  {
    if events != [] {
      var last := |events| - 1;
      PeriodsPass(c, s, events[..last]);
      LastEvent(c, s, events, last);
      StepTakesTime(c, After(c, s, events[..last]), events[last]);
    }
  }

  /** So that in any stretch of time there are at most as many ticks as whole periods. */
  lemma TicksTakeTime(c: Config, s: State, events: seq<Event>, period: nat)
    requires Possible(c, s, events) && period == c.refreshPeriodSec * 1_000_000_000
    ensures s.now + Ticks(events) * period <= After(c, s, events).now
  {
    PeriodsPass(c, s, events);
    PeriodsOfTicks(events, period);
  }

  /** While the daemon runs, the last clean-up is the last tick, at the time that it took as current. */
  lemma {:induction false} LastCleanUp(c: Config, s: State, events: seq<Event>, i: nat, n: nat)
    requires Possible(c, s, events) && i < n <= |events| && events[i].Tick?
    requires forall j :: i < j < n ==> !events[j].Tick?
    requires Possible(c, s, events[..n]) && After(c, s, events[..n]).running
    ensures After(c, s, events[..n]).checked == events[i].current
    ensures After(c, s, events[..n]).now == Ended(events[n - 1])
    decreases n
  {
    NextEvent(c, s, events, n - 1);
    StepTakesTime(c, After(c, s, events[..n - 1]), events[n - 1]);
    if i < n - 1 {
      LastCleanUp(c, s, events, i, n - 1);
    }
  }

  /** The request gets to ssh, reads no URL, and reading what ssh reports panics. */
  ghost predicate StderrPanics(c: Config, w: World, sender: string, text: string, a: Answers) {
    && UserOfPhone(c.users, sender).Some? && IsCommand(text, "open") && |Words(text)| > 1
    && HasRoom(c, w, UserOfPhone(c.users, sender).value, Words(text)[1])
    && !a.spawnFails && ReadUrl(a.output).Err? && a.stderrPanics
  }

  lemma RequestPanics(c: Config, w: World, sender: string, text: string, a: Answers)
    requires IsOrder(a.order, w.tunnels)
    ensures Handle(c, w, sender, text, a).outcome.Panicked? <==> StderrPanics(c, w, sender, text, a)
  {
    var user := UserOfPhone(c.users, sender);
    if user.Some? && Words(text) != [] {
      CheckIsExact(c, w, user.value, Words(text)[1..], a.order);
      assert |Words(text)| > 1 ==> Words(text)[1..][0] == Words(text)[1];
    }
  }

  ghost predicate ExpiryPanics(c: Config, tunnels: Registry, now: nat, portFails: set<u32>) {
    exists r :: r in tunnels && IsOverdue(c, tunnels[r], now) && IsUntellable(c, tunnels, r, portFails)
  }

  lemma TickPanics(c: Config, tunnels: Registry, now: nat, portFails: set<u32>)
    requires forall r :: r in tunnels ==> tunnels[r].created <= now
    ensures CleanUpPanics(c, tunnels, now, portFails) <==> ExpiryPanics(c, tunnels, now, portFails)
  {
    forall r | r in tunnels
      ensures IsUntellable(c, tunnels, r, portFails) <==> NoticePanics(c, tunnels, r, portFails)
      ensures IsOverdue(c, tunnels[r], now) <==> IsExpired(c, tunnels[r], now)
    {
      UntellableIsPanic(c, tunnels, r, portFails);
    }
  }

  /** Exactly a tick, a reading or a request that panics ends the daemon, and with it every tunnel. */
  lemma HaltsExactly(c: Config, s: State, e: Event)
    requires Sound(c, s) && Enabled(c, s, e)
    ensures !Step(c, s, e).running <==>
              match e
              case Tick(_, current, _, _, _, portFails) => ExpiryPanics(c, s.world.tunnels, current, portFails)
              case Received(_, _, sender, text, answers) => StderrPanics(c, s.world, sender, text, answers)
              case ReadingFailed(_) => false
              case ReadingPanicked(_) => true
    ensures !Step(c, s, e).running ==> Step(c, s, e).world.tunnels == map[]
  {
    StepKeepsSound(c, s, e);
    match e {
      case Tick(_, current, _, _, _, portFails) => TickPanics(c, s.world.tunnels, current, portFails);
      case Received(_, _, sender, text, answers) => RequestPanics(c, s.world, sender, text, answers);
      case ReadingFailed(_) =>
      case ReadingPanicked(_) =>
    }
  }
}
