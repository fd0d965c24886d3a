/** What holds in every state that the daemon can reach. */
module RunLaws {
  import opened Configuration
  import opened Text
  import opened Tunnels
  import opened Requests
  import opened RequestLaws
  import opened Expiry
  import opened Daemons

  /** The last clean-up left no tunnel beyond the timeout, and no tunnel is from the future. */
  ghost predicate Fresh(c: Config, s: State) {
    && s.checked <= s.now
    && forall r :: r in s.world.tunnels ==>
         && s.world.tunnels[r].created <= s.now
         && Age(s.world.tunnels[r], s.checked) <= c.tunnelTimeoutSec * NANOS
  }

  ghost predicate Sound(c: Config, s: State) {
    Invariant(c, s.world) && Fresh(c, s) && (!s.running ==> s.world.tunnels == map[])
  }

  lemma TickKeepsFresh(c: Config, s: State, current: nat, done: nat)
    requires Fresh(c, s) && s.now <= current <= done
    ensures Fresh(c, State(Expire(c, s.world, current), done, current, true))
  {
    ExpireFilters(c, s.world, current);
  }

  lemma AdoptKeepsFresh(c: Config, s: State, user: string, application: string, created: nat, done: nat)
    requires Fresh(c, s) && s.now <= created <= done
    ensures Fresh(c, s.(world := Adopt(s.world, user, application, created), now := done))
  {
    assert Age(Tunnel(user, application, s.world.spawned, created), s.checked) == 0;
  }

  lemma OpenKeepsFresh(c: Config, s: State, user: User, arguments: seq<string>, a: Answers, done: nat)
    requires Fresh(c, s) && s.now <= a.created <= done && IsOrder(a.order, s.world.tunnels)
    ensures Fresh(c, s.(world := Open(c, s.world, user, arguments, a).world, now := done))
  {
    OpenWorlds(c, s.world, user, arguments, a);
    if Open(c, s.world, user, arguments, a).outcome.Done? {
      AdoptKeepsFresh(c, s, user.name, arguments[0], a.created, done);
    }
  }

  lemma CloseKeepsFresh(c: Config, s: State, user: User, arguments: seq<string>, a: Answers, done: nat)
    requires Fresh(c, s) && s.now <= done && IsOrder(a.order, s.world.tunnels)
    ensures Fresh(c, s.(world := Close(s.world, user, arguments, a).world, now := done))
  {
    var taken := CloseWorlds(s.world, user, arguments, a);
  }

  lemma RequestKeepsFresh(c: Config, s: State, sender: string, text: string, a: Answers, done: nat)
    requires Fresh(c, s) && s.now <= a.created <= done && IsOrder(a.order, s.world.tunnels)
    ensures Fresh(c, s.(world := Handle(c, s.world, sender, text, a).world, now := done))
  {
    HandleWorlds(c, s.world, sender, text, a);
    var user := UserOfPhone(c.users, sender);
    if user.Some? && Words(text) != [] {
      OpenKeepsFresh(c, s, user.value, Words(text)[1..], a, done);
      CloseKeepsFresh(c, s, user.value, Words(text)[1..], a, done);
    }
  }

  lemma HaltKeepsSound(c: Config, s: State)
    requires Invariant(c, s.world) && Fresh(c, s)
    ensures Sound(c, Halted(s))
  {
    ReleaseKeeps(c, s.world, s.world.tunnels.Keys);
    assert s.world.tunnels - s.world.tunnels.Keys == map[];
  }

  lemma ReceivedKeepsSound(c: Config, s: State, e: Event)
    requires Sound(c, s) && Enabled(c, s, e) && e.Received?
    ensures Sound(c, Step(c, s, e))
  {
    var h := Handle(c, s.world, e.sender, e.text, e.answers);
    RequestKeepsInvariant(c, s.world, e.sender, e.text, e.answers);
    RequestKeepsFresh(c, s, e.sender, e.text, e.answers, e.done);
    HaltKeepsSound(c, State(h.world, e.done, s.checked, true));
  }

  lemma StepKeepsSound(c: Config, s: State, e: Event)
    requires Sound(c, s) && Enabled(c, s, e)
    ensures Sound(c, Step(c, s, e))
  {
    match e {
      case Tick(_, current, done, _, _, _) =>
        ReleaseKeeps(c, s.world, Expired(c, s.world.tunnels, current));
        TickKeepsFresh(c, s, current, done);
        HaltKeepsSound(c, s.(now := done));
      case Received(_, _, _, _, _) => ReceivedKeepsSound(c, s, e);
      case ReadingFailed(_) =>
      case ReadingPanicked(at) => HaltKeepsSound(c, s.(now := at));
    }
  }

  lemma {:induction false} RunKeepsSound(c: Config, s: State, events: seq<Event>)
    requires Sound(c, s) && Possible(c, s, events)
    ensures Sound(c, After(c, s, events))
    decreases |events|
  {
    if events != [] {
      var last := |events| - 1;
      RunKeepsSound(c, s, events[..last]);
      StepKeepsSound(c, After(c, s, events[..last]), events[last]);
    }
  }

  /**
    In every reachable state: each child ever spawned is owned by exactly one tunnel or released, no
    two tunnels are of one user and application, the limit bounds their number and references,
    every tunnel is configured, the status comes from a probe, and no tunnel was past the timeout at
    the last clean-up. After a panic nothing is left.
   */
  lemma RunIsSound(c: Config, s: State, events: seq<Event>)
    requires Initial(c, s) && Possible(c, s, events)
    ensures Sound(c, After(c, s, events))
  {
    assert Sound(c, s);
    RunKeepsSound(c, s, events);
  }

  /** The children add up in every reachable state; a panic releases all of them. */
  lemma RunConserves(c: Config, s: State, events: seq<Event>)
    requires Initial(c, s) && Possible(c, s, events)
    ensures var w := After(c, s, events).world; w.spawned == |w.tunnels| + |w.released|
    ensures !After(c, s, events).running ==> After(c, s, events).world.spawned == |After(c, s, events).world.released|
  {
    RunIsSound(c, s, events);
    ConservedCount(After(c, s, events).world);
  }

  /** A tunnel's age is at most the timeout and the time since the last clean-up, or since its creation. */
  lemma AgeIsBounded(c: Config, s: State, events: seq<Event>, r: u32)
    requires Initial(c, s) && Possible(c, s, events)
    requires r in After(c, s, events).world.tunnels
    ensures var now, checked := After(c, s, events).now, After(c, s, events).checked;
            var t := After(c, s, events).world.tunnels[r];
            t.created <= now && checked <= now
            && now - t.created <= c.tunnelTimeoutSec * 1_000_000_000
                                  + if checked >= t.created then now - checked else now - t.created
  {
    RunIsSound(c, s, events);
  }

  lemma EveryUserIsFound(c: Config, w: World, references: seq<u32>)
    requires Invariant(c, w)
    requires forall r :: r in references ==> r in w.tunnels
    ensures forall r :: r in references ==> r in w.tunnels && UserOfName(c.users, w.tunnels[r].user).Some?
  {
    forall r | r in references ensures UserOfName(c.users, w.tunnels[r].user).Some? {
      UserIsFound(c, w.tunnels[r]);
    }
  }

  /**
    An expired tunnel's user is always found, so that each is notified once, in turn, up to the first
    whose number cannot be encoded; all of them exactly if the clean-up does not panic.
   */
  lemma ExpiryIsNotified(c: Config, w: World, order: seq<u32>, now: nat, portFails: set<u32>)
    requires Invariant(c, w) && IsOrder(order, w.tunnels)
    ensures forall i :: 0 <= i < |order| ==> order[i] in w.tunnels
    ensures var expired := ExpiredIn(c, w.tunnels, order, |order|, now);
            var notices := CleanUpNotices(c, w.tunnels, order, now, portFails);
            && Elements(expired) == Expired(c, w.tunnels, now)
            && |notices| <= |expired|
            && (|notices| == |expired| <==> !CleanUpPanics(c, w.tunnels, now, portFails))
            && forall i :: 0 <= i < |notices| ==> IsNoticeOf(c, w.tunnels, expired[i], notices[i])
  {
    ExpiredInOrder(c, w.tunnels, order, now);
    PanicsExactly(c, w.tunnels, order, now, portFails);
    var expired := ExpiredIn(c, w.tunnels, order, |order|, now);
    PrefixIsNotified(c, w, expired, BeforePanic(c, w.tunnels, expired, portFails));
  }

  lemma PrefixIsNotified(c: Config, w: World, expired: seq<u32>, n: nat)
    requires Invariant(c, w) && n <= |expired|
    requires forall r :: r in expired ==> r in w.tunnels
    ensures |Notices(c, w.tunnels, expired[..n])| == n
    ensures forall i :: 0 <= i < n ==> IsNoticeOf(c, w.tunnels, expired[i], Notices(c, w.tunnels, expired[..n])[i])
  {
    var told := expired[..n];
    EveryUserIsFound(c, w, told);
    EveryExpiryNotified(c, w.tunnels, told);
    assert forall i :: 0 <= i < n ==> told[i] == expired[i];
  }

  lemma UserIsFound(c: Config, t: Tunnel)
    requires IsConfigured(c, t)
    ensures UserOfName(c.users, t.user).Some?
  {
    var phone :| IsServed(c, phone, t.application) && UserOfPhone(c.users, phone).value.name == t.user;
    assert UserOfPhone(c.users, phone).value in c.users;
  }
}
