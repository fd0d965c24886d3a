/** The loop of `run` over the events of a run, driving the mutable context. */
module Loop {
  import opened Configuration
  import opened Sequences
  import opened Tunnels
  import opened Contexts
  import opened Daemons
  import opened RunLaws
  import opened RunHistory

  /** What the first `n` events of a run come to. */
  ghost predicate Reached(c: Config, start: State, events: seq<Event>, n: nat, s: State, sends: seq<Outgoing>,
                          registered: seq<User>) {
    && n <= |events| && Possible(c, start, events[..n])
    && s == After(c, start, events[..n]) && sends == AllSends(c, start, events[..n])
    && registered == AllRegistered(c, start, events[..n])
  }

  lemma ReachedStart(c: Config, start: State, events: seq<Event>)
    ensures Reached(c, start, events, 0, start, [], [])
  {
  }

  lemma ReachedNext(c: Config, start: State, events: seq<Event>, n: nat, s: State, sends: seq<Outgoing>,
                    registered: seq<User>)
    requires Sound(c, start) && Possible(c, start, events) && n < |events|
    requires Reached(c, start, events, n, s, sends, registered)
    ensures Enabled(c, s, events[n]) && Fresh(c, s)
    ensures Reached(c, start, events, n + 1, Step(c, s, events[n]), sends + Sends(c, s, events[n]),
                    registered + Registers(c, s, events[n]))
  {
    NextEvent(c, start, events, n);
    RunKeepsSound(c, start, events[..n]);
  }

  lemma ReachedEnd(c: Config, start: State, events: seq<Event>, s: State, sends: seq<Outgoing>,
                   registered: seq<User>)
    requires Possible(c, start, events) && Reached(c, start, events, |events|, s, sends, registered)
    ensures s == After(c, start, events) && sends == AllSends(c, start, events)
    ensures registered == AllRegistered(c, start, events)
  {
    assert events[..|events|] == events;
  }

  /** Dropping all tunnels releases every child, whichever have been released before. */
  lemma ReleaseAll(before: World, after: World)
    requires after.status == before.status && after.tunnels == before.tunnels && after.spawned == before.spawned
    requires before.released <= after.released <= before.released + Children(before.tunnels, before.tunnels.Keys)
    ensures Release(after, after.tunnels.Keys) == Release(before, before.tunnels.Keys)
  {
  }

  /** The loop's own variables, beside the context that it drives. */
  class Daemon {
    const context: Context
    var now: nat
    var checked: nat
    var running: bool
    var sent: seq<Outgoing>
    /** The users that have been registered for the restart notification. */
    var registered: seq<User>

    constructor (context: Context, now: nat)
      ensures this.context == context && State() == Daemons.State(context.Model(), now, now, true)
      ensures sent == [] && registered == []
    {
      this.context := context;
      this.now, checked, running, sent, registered := now, now, true, [], [];
    }

    function State(): Daemons.State
      reads this, context
    {
      Daemons.State(context.Model(), now, checked, running)
    }

    method Stop()
      modifies this, context
      ensures State() == Halted(old(State())) && sent == old(sent) && registered == old(registered)
    {
      context.DropTunnels();
      running := false;
    }

    method Clean(e: Event)
      requires e.Tick? && Enabled(context.configuration, State(), e) && Fresh(context.configuration, State())
      modifies this, context
      ensures State() == Step(context.configuration, old(State()), e)
      ensures sent == old(sent) + Sends(context.configuration, old(State()), e)
      ensures registered == old(registered) + Registers(context.configuration, old(State()), e)
    {
      var notices, panicked := context.CleanUpExpiredTunnels(e.current, e.order, e.killFails, e.portFails);
      sent := sent + Notifications(notices);
      now := e.done;
      if panicked {
        ReleaseAll(old(context.Model()), context.Model());
        Stop();
      } else {
        checked := e.current;
      }
    }

    method Serve(e: Event)
      requires e.Received? && Enabled(context.configuration, State(), e)
      modifies this, context
      ensures State() == Step(context.configuration, old(State()), e)
      ensures sent == old(sent) + Sends(context.configuration, old(State()), e)
      ensures registered == old(registered) + Registers(context.configuration, old(State()), e)
    {
      var outcome, _, register := context.HandleRequest(e.sender, e.text, e.answers);
      registered := registered + Listed(register);
      now := e.done;
      if outcome.Panicked? {
        Stop();
      } else {
        sent := sent + Respond(e.sender, outcome);
      }
    }

    method Dispatch(e: Event)
      requires Enabled(context.configuration, State(), e) && Fresh(context.configuration, State())
      modifies this, context
      ensures State() == Step(context.configuration, old(State()), e)
      ensures sent == old(sent) + Sends(context.configuration, old(State()), e)
      ensures registered == old(registered) + Registers(context.configuration, old(State()), e)
    {
      match e {
        case Tick(_, _, _, _, _, _) => Clean(e);
        case Received(_, _, _, _, _) => Serve(e);
        case ReadingFailed(at) => now := at;
        case ReadingPanicked(at) =>
          now := at;
          Stop();
      }
    }

    /** One turn of the loop, the `n`-th of a run that started in `start`. */
    method Turn(events: seq<Event>, n: nat, ghost start: Daemons.State, ghost sends: seq<Outgoing>,
                ghost users: seq<User>)
      returns (ghost turn: seq<Outgoing>, ghost next: seq<User>)
      requires Sound(context.configuration, start) && Possible(context.configuration, start, events)
      requires n < |events| && Reached(context.configuration, start, events, n, State(), sends, users)
      modifies this, context
      ensures sent == old(sent) + turn && registered == old(registered) + next
      ensures Reached(context.configuration, start, events, n + 1, State(), sends + turn, users + next)
    {
      ReachedNext(context.configuration, start, events, n, State(), sends, users);
      turn := Sends(context.configuration, State(), events[n]);
      next := Registers(context.configuration, State(), events[n]);
      Dispatch(events[n]);
    }

    /** Any finite part of the endless loop. */
    method Run(events: seq<Event>)
      requires Sound(context.configuration, State()) && Possible(context.configuration, State(), events)
      modifies this, context
      ensures State() == After(context.configuration, old(State()), events)
      ensures sent == old(sent) + AllSends(context.configuration, old(State()), events)
      ensures registered == old(registered) + AllRegistered(context.configuration, old(State()), events)
    {
      ghost var start, earlier, before := State(), sent, registered;
      ghost var sends: seq<Outgoing>, users: seq<User> := [], [];
      var n := 0;
      ReachedStart(context.configuration, start, events);
      while n < |events|
        invariant n <= |events| && sent == earlier + sends && registered == before + users
        invariant Reached(context.configuration, start, events, n, State(), sends, users)
      {
        ghost var turn, next := Turn(events, n, start, sends, users);
        Associative(earlier, sends, turn);
        Associative(before, users, next);
        sends, users := sends + turn, users + next;
        n := n + 1;
      }
      ReachedEnd(context.configuration, start, events, State(), sends, users);
    }
  }
}
