/** The timeout is only enforced by ticks: waits that end early keep every tunnel open. */
module Starvation {
  import opened Wrappers
  import opened Arrivals
  import opened Configuration
  import opened Text
  import opened Tunnels
  import opened Daemons
  import opened RunHistory
  import opened Displacement

  /** When the loop is back at waiting after a message or a failed reading. */
  function End(e: Event): nat
    requires e.Received? || e.ReadingFailed?
  {
    if e.Received? then e.done else e.at
  }

  /** Only messages and failed readings, each before the wait that it ends has lasted the refresh period. */
  ghost predicate IsBusy(c: Config, start: nat, events: seq<Event>) {
    forall i :: 0 <= i < |events| ==>
      && (events[i].Received? || events[i].ReadingFailed?)
      && (i == 0 ==> events[i].at < start + c.refreshPeriodSec * NANOS)
      && (i > 0 && (events[i - 1].Received? || events[i - 1].ReadingFailed?)
          ==> events[i].at < End(events[i - 1]) + c.refreshPeriodSec * NANOS)
  }

  predicate NoTick(events: seq<Event>) {
    forall i :: 0 <= i < |events| ==> !events[i].Tick?
  }

  /** A state reached without a tick has a tunnel older than the bound. */
  ghost predicate IsStarved(c: Config, s: State, events: seq<Event>, r: u32, bound: nat) {
    && Initial(c, s) && Possible(c, s, events) && NoTick(events)
    && After(c, s, events).running
    && r in After(c, s, events).world.tunnels
    && After(c, s, events).now > After(c, s, events).world.tunnels[r].created + bound
  }

  ghost predicate CanStarve(c: Config, bound: nat) {
    exists s, events, r :: IsStarved(c, s, events, r, bound)
  }

  /** A message without a command, or a failed reading. */
  function Interruption(c: Config, phone: string, time: nat, failing: bool): Event {
    if failing then ReadingFailed(time) else Received(time, time, phone, "", Good([0], c).(created := time))
  }

  lemma NothingHappens(c: Config, w: World, phone: string, time: nat, failing: bool)
    requires IsOrder([0], w.tunnels) && time > 0 && IsSender(phone)
    ensures var s, e := State(w, time - 1, 0, true), Interruption(c, phone, time, failing);
            Enabled(c, s, e) && Step(c, s, e) == State(w, time, 0, true)
  {
    assert Words("") == [];
  }

  lemma StaysBusy(c: Config, events: seq<Event>, e: Event)
    requires IsBusy(c, 0, events) && events != [] && (e.Received? || e.ReadingFailed?)
    requires (events[|events| - 1].Received? || events[|events| - 1].ReadingFailed?)
    requires e.at < End(events[|events| - 1]) + c.refreshPeriodSec * NANOS
    ensures IsBusy(c, 0, events + [e])
  {
  }

  /** An opening, and interruptions of one kind after it, the last at a time, none of them late. */
  ghost predicate IsComing(c: Config, opening: Event, events: seq<Event>, time: nat, failing: bool) {
    && NoTick(events) && (c.refreshPeriodSec >= 1 ==> IsBusy(c, 0, events))
    && events != [] && events[0] == opening && AllAfterFirst(events, failing)
    && !events[|events| - 1].ReadingPanicked? && End(events[|events| - 1]) == time
  }

  lemma ComesAgain(c: Config, opening: Event, events: seq<Event>, phone: string, time: nat, failing: bool)
    requires IsComing(c, opening, events, time, failing)
    ensures IsComing(c, opening, events + [Interruption(c, phone, time + 1, failing)], time + 1, failing)
  {
    if c.refreshPeriodSec >= 1 {
      StaysBusy(c, events, Interruption(c, phone, time + 1, failing));
    }
  }

  /** Such a run of every length, with an interruption every nanosecond. */
  lemma {:induction false} KeepsComing(c: Config, s: State, opening: Event, w: World, phone: string, n: nat,
                                       failing: bool)
    returns (events: seq<Event>)
    requires s.now == 0 && IsSender(phone)
    requires Possible(c, s, [opening]) && After(c, s, [opening]) == At(w)
    requires opening.Received? && opening.at == 0 && opening.done == 0
    requires IsOrder([0], w.tunnels)
    ensures Possible(c, s, events) && After(c, s, events) == State(w, n, 0, true)
    ensures IsComing(c, opening, events, n, failing)
  {
    events := [opening];
    if n > 0 {
      var earlier := KeepsComing(c, s, opening, w, phone, n - 1, failing);
      events := earlier + [Interruption(c, phone, n, failing)];
      NothingHappens(c, w, phone, n, failing);
      ComesAgain(c, opening, earlier, phone, n - 1, failing);
      Extend(c, s, earlier, Interruption(c, phone, n, failing));
    }
  }

  /**
    Messages alone, or failed readings alone, after the opening of a tunnel, keep the tunnel beyond
    every bound, whatever the tunnel timeout; each within the refresh period, unless that is zero.
   */
  lemma OneCauseIsEnough(c: Config, phone: string, application: string, bound: nat, failing: bool)
    requires Openable(c, phone, application) && c.tunnelMax != Some(0)
    ensures exists s, events :: IsStarved(c, s, events, 0, bound) && AllAfterFirst(events, failing)
                                && (c.refreshPeriodSec >= 1 ==> IsBusy(c, s.now, events))
  {
    var w := Start(c, application, application);
    var first := FirstOpening(c, w, phone, application);
    OpenedHasTunnel(c, w, phone, application);
    var opening := Request(phone, "open " + application, [], c);
    var events := KeepsComing(c, At(w), opening, Opened(c, w, phone, application), phone, bound + 1, failing);
    assert IsStarved(c, At(w), events, 0, bound) && AllAfterFirst(events, failing);
  }

  /** Behind the first event there are failed readings only, or none. */
  predicate AllAfterFirst(events: seq<Event>, failing: bool) {
    forall i :: 0 < i < |events| ==> events[i].ReadingFailed? == failing
  }

  /** What such a run needs: a tunnel that can be opened. */
  lemma StarvationNeeds(c: Config, s: State, events: seq<Event>, r: u32, bound: nat)
    requires IsStarved(c, s, events, r, bound)
    ensures c.tunnelMax != Some(0)
    ensures exists phone, application :: Openable(c, phone, application)
  {
    TunnelNeeds(c, s, events, r);
    SomethingIsOpenable(c, After(c, s, events).world.tunnels[r]);
  }

  /**
    Tunnels can outlive every bound without a tick in exactly the configurations in which a tunnel can
    be opened at all, whatever the timeout and the refresh period.
   */
  lemma NoTickNoExpiry(c: Config)
    ensures (forall bound :: CanStarve(c, bound))
            <==> (c.tunnelMax != Some(0) && exists phone, application :: Openable(c, phone, application))
  {
    if forall bound :: CanStarve(c, bound) {
      assert CanStarve(c, 0);
      var s, events, r :| IsStarved(c, s, events, r, 0);
      StarvationNeeds(c, s, events, r, 0);
    }
    if phone, application :| Openable(c, phone, application) && c.tunnelMax != Some(0) {
      forall bound ensures CanStarve(c, bound) {
        OneCauseIsEnough(c, phone, application, bound, true);
      }
    }
  }
}
