/** Properties that relate the states of a run: where tunnels come from, and who is answered. */
module RunHistory {
  import opened Arrivals
  import opened Configuration
  import opened Text
  import opened TunnelReader
  import opened Tunnels
  import opened Requests
  import opened RequestLaws
  import opened Daemons

  /**
    A user whose requests are served and can arrive, and an application whose name is one word of at
    most 31 septets, so that a request for it can arrive, too.
   */
  predicate Openable(c: Config, phone: string, application: string) {
    IsServed(c, phone, application) && IsSender(phone) && Fits(application, MAX_ARGUMENT)
  }

  /** An event opens a tunnel: a configured user's `open` of its application, while the status allowed it. */
  ghost predicate Opens(c: Config, s: State, e: Event, t: Tunnel) {
    && e.Received? && Openable(c, e.sender, t.application)
    && UserOfPhone(c.users, e.sender).value.name == t.user
    && IsCommand(e.text, "open") && |Words(e.text)| > 1 && Words(e.text)[1] == t.application
    && Allows(s.world.status, t.application)
    && t.process == s.world.spawned && t.created == e.answers.created
    && ReadUrl(e.answers.output).Ok? && e.answers.emailSent
  }

  lemma OpenedNow(c: Config, s: State, e: Event, r: u32)
    requires Enabled(c, s, e) && e.Received?
    requires var h := Handle(c, s.world, e.sender, e.text, e.answers); h.outcome.Done? && h.outcome.value.TunnelOpened?
    requires r in Step(c, s, e).world.tunnels
    ensures (r in s.world.tunnels && s.world.tunnels[r] == Step(c, s, e).world.tunnels[r])
            || Opens(c, s, e, Step(c, s, e).world.tunnels[r])
  {
    OpenedTunnel(c, s.world, e.sender, e.text, e.answers);
    ArgumentFits(e.text);
  }

  /** How a request of a known sender is dispatched. */
  lemma Dispatched(c: Config, w: World, sender: string, text: string, a: Answers)
    requires IsOrder(a.order, w.tunnels)
    requires UserOfPhone(c.users, sender).Some? && Words(text) != []
    ensures var h, user, rest := Handle(c, w, sender, text, a), UserOfPhone(c.users, sender).value, Words(text)[1..];
            if IsCommand(text, "open") then h == Open(c, w, user, rest, a)
            else if IsCommand(text, "close") then h == Close(w, user, rest, a)
            else h.world.tunnels == w.tunnels
  {
  }

  lemma OpenFails(c: Config, w: World, user: User, arguments: seq<string>, a: Answers)
    requires IsOrder(a.order, w.tunnels)
    ensures var h := Open(c, w, user, arguments, a);
            (h.outcome.Done? && h.outcome.value.TunnelOpened?) || h.world.tunnels == w.tunnels
  {
    OpenWorlds(c, w, user, arguments, a);
  }

  lemma CloseOnlyRemoves(w: World, user: User, arguments: seq<string>, a: Answers)
    requires IsOrder(a.order, w.tunnels)
    ensures Kept(Close(w, user, arguments, a).world.tunnels, w.tunnels)
  {
    var taken := CloseWorlds(w, user, arguments, a);
  }

  lemma NotOpened(c: Config, w: World, sender: string, text: string, a: Answers)
    requires IsOrder(a.order, w.tunnels)
    requires var h := Handle(c, w, sender, text, a); !(h.outcome.Done? && h.outcome.value.TunnelOpened?)
    ensures Kept(Handle(c, w, sender, text, a).world.tunnels, w.tunnels)
  {
    var user := UserOfPhone(c.users, sender);
    if user.Some? && Words(text) != [] {
      Dispatched(c, w, sender, text, a);
      OpenFails(c, w, user.value, Words(text)[1..], a);
      CloseOnlyRemoves(w, user.value, Words(text)[1..], a);
    }
  }

  /** A step leaves a tunnel as it was, takes it out, or opens it. */
  lemma StepTunnels(c: Config, s: State, e: Event, r: u32)
    requires Enabled(c, s, e)
    requires r in Step(c, s, e).world.tunnels
    ensures (r in s.world.tunnels && s.world.tunnels[r] == Step(c, s, e).world.tunnels[r])
            || Opens(c, s, e, Step(c, s, e).world.tunnels[r])
  {
    if e.Received? {
      var h := Handle(c, s.world, e.sender, e.text, e.answers);
      if h.outcome.Done? && h.outcome.value.TunnelOpened? {
        OpenedNow(c, s, e, r);
      } else {
        NotOpened(c, s.world, e.sender, e.text, e.answers);
      }
    }
  }

  ghost predicate OpensAt(c: Config, s: State, events: seq<Event>, i: nat, t: Tunnel) {
    i < |events| && Possible(c, s, events[..i]) && Opens(c, After(c, s, events[..i]), events[i], t)
  }

  lemma OpensInPrefix(c: Config, s: State, events: seq<Event>, n: nat, i: nat, t: Tunnel)
    requires n <= |events| && OpensAt(c, s, events[..n], i, t)
    ensures OpensAt(c, s, events, i, t)
  {
    assert events[..n][..i] == events[..i];
  }

  /**
    Every tunnel of a reachable state was opened by an earlier event of the run, by a user of its name
    and for its application, in a state whose status was Ready with mail, tunnel service and that
    application reachable.
   */
  lemma {:induction false} TunnelWasAllowed(c: Config, s: State, events: seq<Event>, r: u32)
    requires Initial(c, s) && Possible(c, s, events)
    requires r in After(c, s, events).world.tunnels
    ensures exists i :: OpensAt(c, s, events, i, After(c, s, events).world.tunnels[r])
    decreases |events|
  {
    if events != [] {
      var last := |events| - 1;
      var before, t := After(c, s, events[..last]), After(c, s, events).world.tunnels[r];
      StepTunnels(c, before, events[last], r);
      if Opens(c, before, events[last], t) {
        assert OpensAt(c, s, events, last, t);
      } else {
        TunnelWasAllowed(c, s, events[..last], r);
        var i :| OpensAt(c, s, events[..last], i, t);
        OpensInPrefix(c, s, events, last, i, t);
      }
    }
  }

  // ---------- Answers ----------

  /** Each SMS leads to at most one reply attempt, to its own sender, who is a configured user. */
  lemma RepliesToSender(c: Config, s: State, e: Event)
    requires Enabled(c, s, e) && e.Received?
    ensures |Sends(c, s, e)| <= 1
    ensures forall o :: o in Sends(c, s, e) ==>
              && o == Outgoing(e.sender, Answer(Handle(c, s.world, e.sender, e.text, e.answers).outcome))
              && exists u :: u in c.users && u.phone == e.sender
    ensures Sends(c, s, e) == [] <==>
            UserOfPhone(c.users, e.sender).None? || Step(c, s, e).running == false
  {
    var h := Handle(c, s.world, e.sender, e.text, e.answers);
    NotAllowedIsUnknown(c, s.world, e.sender, e.text, e.answers);
    assert UserOfPhone(c.users, e.sender).Some? ==> UserOfPhone(c.users, e.sender).value in c.users;
  }

  lemma NotAllowedIsUnknown(c: Config, w: World, sender: string, text: string, a: Answers)
    requires IsOrder(a.order, w.tunnels)
    ensures var h := Handle(c, w, sender, text, a);
            h.outcome.Failed? && h.outcome.error.SenderNotAllowed? <==> UserOfPhone(c.users, sender).None?
  {
    var user := UserOfPhone(c.users, sender);
    if user.Some? && Words(text) != [] {
      CloseErrors(w, user.value, Words(text)[1..], a);
      OpenErrors(c, w, user.value, Words(text)[1..], a);
    }
  }

  lemma OpenErrors(c: Config, w: World, user: User, arguments: seq<string>, a: Answers)
    requires IsOrder(a.order, w.tunnels)
    ensures var h := Open(c, w, user, arguments, a); h.outcome.Failed? ==> !h.outcome.error.SenderNotAllowed?
  {
  }

  lemma CloseErrors(w: World, user: User, arguments: seq<string>, a: Answers)
    requires IsOrder(a.order, w.tunnels)
    ensures var h := Close(w, user, arguments, a); h.outcome.Failed? ==> !h.outcome.error.SenderNotAllowed?
  {
    if arguments == [] {
      CloseAllErrors(w, OwnedBy(a.order, w.tunnels, user.name), a.killFails);
    } else if ParseU32(arguments[0]).Some? {
      CloseAllErrors(w, [ParseU32(arguments[0]).value], a.killFails);
    }
  }

  lemma {:induction false} CloseAllErrors(w: World, references: seq<u32>, killFails: set<u32>)
    ensures var error := CloseAll(w, references, killFails).error;
            error.Some? ==> error.value.KillFailure? || error.value.InvalidRequest?
    decreases |references|
  {
    if references != [] && references[0] in w.tunnels && references[0] !in killFails {
      CloseAllErrors(Release(w, {references[0]}), references[1..], killFails);
    }
  }

  // ---------- The loop ----------

  lemma {:induction false} PossiblePrefix(c: Config, s: State, events: seq<Event>, n: nat)
    requires Possible(c, s, events) && n <= |events|
    ensures Possible(c, s, events[..n])
    decreases |events|
  {
    if n < |events| {
      PossiblePrefix(c, s, events[..|events| - 1], n);
      assert events[..|events| - 1][..n] == events[..n];
    } else {
      assert events[..n] == events;
    }
  }

  lemma LastEvent(c: Config, s: State, events: seq<Event>, last: nat)
    requires Possible(c, s, events) && last + 1 == |events|
    ensures Possible(c, s, events[..last]) && Enabled(c, After(c, s, events[..last]), events[last])
    ensures After(c, s, events) == Step(c, After(c, s, events[..last]), events[last])
    ensures AllSends(c, s, events)
         == AllSends(c, s, events[..last]) + Sends(c, After(c, s, events[..last]), events[last])
    ensures AllRegistered(c, s, events)
         == AllRegistered(c, s, events[..last]) + Registers(c, After(c, s, events[..last]), events[last])
  {
  }

  lemma NextEvent(c: Config, s: State, events: seq<Event>, n: nat)
    requires Possible(c, s, events) && n < |events|
    ensures Possible(c, s, events[..n]) && Possible(c, s, events[..n + 1])
    ensures Enabled(c, After(c, s, events[..n]), events[n])
    ensures After(c, s, events[..n + 1]) == Step(c, After(c, s, events[..n]), events[n])
    ensures AllSends(c, s, events[..n + 1])
         == AllSends(c, s, events[..n]) + Sends(c, After(c, s, events[..n]), events[n])
    ensures AllRegistered(c, s, events[..n + 1])
         == AllRegistered(c, s, events[..n]) + Registers(c, After(c, s, events[..n]), events[n])
  {
    PossiblePrefix(c, s, events, n + 1);
    LastEvent(c, s, events[..n + 1], n);
    assert events[..n + 1][..n] == events[..n];
  }
}
