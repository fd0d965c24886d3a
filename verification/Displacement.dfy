/** Exactly which configurations allow a run in which an opening displaces a live tunnel. */
module Displacement {
  import opened Wrappers
  import opened Arrivals
  import opened Configuration
  import opened Matchers
  import opened Messages
  import opened Status
  import opened Text
  import opened TunnelReader
  import opened TunnelOutput
  import opened Tunnels
  import opened Requests
  import opened RequestLaws
  import opened Daemons
  import opened RunLaws
  import opened RunHistory

  /** The event opens a tunnel whose new reference is live. */
  ghost predicate Displaces(c: Config, s: State, e: Event) {
    && Enabled(c, s, e) && e.Received?
    && var h := Handle(c, s.world, e.sender, e.text, e.answers);
       h.outcome.Done? && h.outcome.value.TunnelOpened? && NewReference(s.world.tunnels) in s.world.tunnels
  }

  ghost predicate CanDisplace(c: Config) {
    exists s, events, e :: Initial(c, s) && Possible(c, s, events) && Displaces(c, After(c, s, events), e)
  }

  /** Two openings that the daemon takes for the same. */
  ghost predicate SameOpening(c: Config, phone: string, application: string, phone': string, application': string)
    requires UserOfPhone(c.users, phone).Some? && UserOfPhone(c.users, phone').Some?
  {
    UserOfPhone(c.users, phone).value.name == UserOfPhone(c.users, phone').value.name && application == application'
  }

  /** At most one tunnel can ever be open: by the limit, or because there is only one to be opened. */
  ghost predicate OneTunnelOnly(c: Config) {
    || (c.tunnelMax.Some? && c.tunnelMax.value <= 1)
    || (forall phone, application, phone', application' ::
          Openable(c, phone, application) && Openable(c, phone', application')
          ==> SameOpening(c, phone, application, phone', application'))
  }

  /** The opening that a live tunnel comes from. */
  ghost predicate IsOpenable(c: Config, t: Tunnel) {
    exists phone :: Openable(c, phone, t.application) && UserOfPhone(c.users, phone).value.name == t.user
  }

  lemma OpenedIsOpenable(c: Config, s: State, events: seq<Event>, i: nat, t: Tunnel)
    requires OpensAt(c, s, events, i, t)
    ensures IsOpenable(c, t)
  {
  }

  lemma SomeOpeningIsOpenable(c: Config, s: State, events: seq<Event>, t: Tunnel)
    requires exists i :: OpensAt(c, s, events, i, t)
    ensures IsOpenable(c, t)
  {
    var i :| OpensAt(c, s, events, i, t);
    OpenedIsOpenable(c, s, events, i, t);
  }

  lemma TunnelIsOpenable(c: Config, s: State, events: seq<Event>, r: u32)
    requires Initial(c, s) && Possible(c, s, events)
    requires r in After(c, s, events).world.tunnels
    ensures IsOpenable(c, After(c, s, events).world.tunnels[r])
  {
    TunnelWasAllowed(c, s, events, r);
    SomeOpeningIsOpenable(c, s, events, After(c, s, events).world.tunnels[r]);
  }

  ghost predicate AllOpenable(c: Config, tunnels: Registry) {
    forall r :: r in tunnels ==> IsOpenable(c, tunnels[r])
  }

  lemma TunnelsAreOpenable(c: Config, s: State, events: seq<Event>)
    requires Initial(c, s) && Possible(c, s, events)
    ensures AllOpenable(c, After(c, s, events).world.tunnels)
  {
    forall r | r in After(c, s, events).world.tunnels
      ensures IsOpenable(c, After(c, s, events).world.tunnels[r])
    {
      TunnelIsOpenable(c, s, events, r);
    }
  }

  lemma SomethingIsOpenable(c: Config, t: Tunnel)
    requires IsOpenable(c, t)
    ensures exists phone, application :: Openable(c, phone, application)
  {
  }

  lemma NotWithinZero(limit: Option<u32>, tunnels: Registry, r: u32)
    requires Within(limit, tunnels) && r in tunnels
    ensures limit != Some(0)
  {
  }

  /** What a live tunnel needs of the configuration. */
  lemma TunnelNeeds(c: Config, s: State, events: seq<Event>, r: u32)
    requires Initial(c, s) && Possible(c, s, events)
    requires r in After(c, s, events).world.tunnels
    ensures c.tunnelMax != Some(0) && IsOpenable(c, After(c, s, events).world.tunnels[r])
  {
    RunIsSound(c, s, events);
    TunnelIsOpenable(c, s, events, r);
    NotWithinZero(c.tunnelMax, After(c, s, events).world.tunnels, r);
  }

  lemma OnlyPair(c: Config, t: Tunnel, phone: string, application: string)
    requires IsOpenable(c, t) && Openable(c, phone, application)
    requires forall p, a, p', a' :: Openable(c, p, a) && Openable(c, p', a') ==> SameOpening(c, p, a, p', a')
    ensures t.user == UserOfPhone(c.users, phone).value.name && t.application == application
  {
    var p :| Openable(c, p, t.application) && UserOfPhone(c.users, p).value.name == t.user;
    assert SameOpening(c, p, t.application, phone, application);
  }

  /** Where only one tunnel can be open, an opening finds the registry empty. */
  lemma OnlyTunnelOpensEmpty(c: Config, s: State, e: Event)
    requires Within(c.tunnelMax, s.world.tunnels) && OneTunnelOnly(c)
    requires AllOpenable(c, s.world.tunnels)
    requires Enabled(c, s, e) && e.Received?
    requires var h := Handle(c, s.world, e.sender, e.text, e.answers); h.outcome.Done? && h.outcome.value.TunnelOpened?
    ensures s.world.tunnels == map[]
  {
    var w := s.world;
    OpenedTunnel(c, w, e.sender, e.text, e.answers);
    ArgumentFits(e.text);
    OpenIsOnlyOpening(c, w, e.sender, e.text, e.answers);
    CheckIsExact(c, w, UserOfPhone(c.users, e.sender).value, Words(e.text)[1..], e.answers.order);
    if !(c.tunnelMax.Some? && c.tunnelMax.value <= 1) {
      NoOtherPair(c, w, e.sender, Words(e.text)[1]);
    }
  }

  lemma NoOtherPair(c: Config, w: World, phone: string, application: string)
    requires AllOpenable(c, w.tunnels)
    requires Openable(c, phone, application)
    requires forall p, a, p', a' :: Openable(c, p, a) && Openable(c, p', a') ==> SameOpening(c, p, a, p', a')
    requires forall r :: r in w.tunnels ==> w.tunnels[r].user != UserOfPhone(c.users, phone).value.name
                                            || w.tunnels[r].application != application
    ensures w.tunnels == map[]
  {
    if r :| r in w.tunnels {
      OnlyPair(c, w.tunnels[r], phone, application);
    }
  }

  lemma OneTunnelIsSafe(c: Config, s: State, e: Event)
    requires Within(c.tunnelMax, s.world.tunnels) && OneTunnelOnly(c) && AllOpenable(c, s.world.tunnels)
    ensures !Displaces(c, s, e)
  {
    if Displaces(c, s, e) {
      OnlyTunnelOpensEmpty(c, s, e);
    }
  }

  lemma OneTunnelNeverDisplaces(c: Config, s: State, events: seq<Event>, e: Event)
    requires OneTunnelOnly(c) && Initial(c, s) && Possible(c, s, events)
    ensures !Displaces(c, After(c, s, events), e)
  {
    RunIsSound(c, s, events);
    TunnelsAreOpenable(c, s, events);
    OneTunnelIsSafe(c, After(c, s, events), e);
  }

  // ---------- A run that displaces ----------

  /** The line "Forwarding  x". */
  const URL_LINE: seq<nat> := FORWARDING + [120, LINE_FEED]

  lemma UrlLineMatches()
    ensures FindUrl(URL_LINE) == Some(Match(0, 13))
  {
    assert IsUrl(URL_LINE, Match(0, 13));
  }

  lemma FirstByte(s: seq<nat>, i: nat)
    requires i + 4 <= |s|
    ensures s[i..i + 4][0] == s[i]
  {
  }

  lemma NoErrorWithoutE(s: seq<nat>)
    requires forall i :: 0 <= i < |s| ==> s[i] != ERR[0]
    ensures FindError(s).None?
  {
    if m :| IsError(s, m) {
      FirstByte(s, m.start);
    }
  }

  lemma UrlLineIsRead()
    ensures ReadUrl([Chunk(URL_LINE)]).Ok?
  {
    UrlLineMatches();
    NoErrorWithoutE(URL_LINE[..13]);
    OneChunk(URL_LINE);
    assert IsAscii(URL_LINE);
    EverySplitReadsUrl(URL_LINE);
  }

  /** Answers under which everything succeeds. */
  function Good(order: seq<u32>, c: Config): Answers {
    Answers(order, {}, false, [Chunk(URL_LINE)], false, true, 0, GoodProbes(c))
  }

  function Positions(n: nat): (positions: set<nat>)
    ensures forall i :: 0 <= i < n ==> i in positions
  {
    if n == 0 then {} else Positions(n - 1) + {n - 1}
  }

  function GoodProbes(c: Config): Probes {
    Probes(Ok("verified"), Ok("available"), true, true, true, Positions(|c.applications|))
  }

  function Request(sender: string, text: string, order: seq<u32>, c: Config): Event {
    Received(0, 0, sender, text, Good(order, c))
  }

  lemma {:induction false} AllReachable(applications: seq<Application>, answering: set<nat>, name: string)
    requires forall i :: 0 <= i < |applications| ==> i in answering
    requires ApplicationOfName(applications, name).Some?
    ensures name in ApplicationsStatus(applications, answering)
    ensures ApplicationsStatus(applications, answering)[name] == Reachable
  {
    var last := LastOfName(applications, ApplicationOfName(applications, name).value);
    StatusOfName(applications, answering, last);
  }

  lemma GoodStatus(c: Config, application: string)
    requires ApplicationOfName(c.applications, application).Some?
    ensures GetStatus(c, GoodProbes(c)).Ok? && Allows(GetStatus(c, GoodProbes(c)).value, application)
  {
    AllReachable(c.applications, GoodProbes(c).answering, application);
  }

  lemma OpenRequest(application: string)
    requires IsWord(application)
    ensures Words("open " + application) == ["open", application]
    ensures Lower("open") == "open"
  {
    assert "open " + application == "open" + " " + application;
    TwoWords("open", application);
  }

  /** An opening that nothing stands in the way of. */
  lemma OpenSucceeds(c: Config, w: World, phone: string, application: string, order: seq<u32>)
    requires IsOrder(order, w.tunnels) && Openable(c, phone, application)
    requires Allows(w.status, application)
    requires c.tunnelMax.Some? ==> |w.tunnels| < c.tunnelMax.value
    requires forall r :: r in w.tunnels ==> w.tunnels[r].user != UserOfPhone(c.users, phone).value.name
                                            || w.tunnels[r].application != application
    ensures var h := Handle(c, w, phone, "open " + application, Good(order, c));
            && h.outcome == Done(TunnelOpened(NewReference(w.tunnels)))
            && h.world == Adopt(w, UserOfPhone(c.users, phone).value.name, application, 0)
    ensures Arrives(phone, "open " + application)
  {
    OpenFits(application);
    var user := UserOfPhone(c.users, phone).value;
    OpenRequest(application);
    UrlLineIsRead();
    assert ["open", application][1..] == [application];
    CheckIsExact(c, w, user, [application], order);
  }

  lemma CloseZeroFits()
    ensures Fits("close " + Decimal(0), MAX_SEPTETS)
  {
    forall c | c in "close " + Decimal(0) ensures IsPlain(c) {
      AsciiIsPlain(c);
    }
    ShortTextFits("close " + Decimal(0));
  }

  lemma Extend(c: Config, s: State, events: seq<Event>, e: Event)
    requires Possible(c, s, events) && Enabled(c, After(c, s, events), e)
    ensures Possible(c, s, events + [e])
    ensures After(c, s, events + [e]) == Step(c, After(c, s, events), e)
  {
    assert (events + [e])[..|events|] == events;
  }

  /** The state at time zero with some world. */
  function At(w: World): State {
    State(w, 0, 0, true)
  }

  /** From a run to one world, with one more request, to a run to the next. */
  lemma NextRequest(c: Config, s: State, events: seq<Event>, w: World, sender: string, text: string, order: seq<u32>)
    returns (longer: seq<Event>)
    requires Possible(c, s, events) && After(c, s, events) == At(w)
    requires IsOrder(order, w.tunnels) && Arrives(sender, text)
    requires !Handle(c, w, sender, text, Good(order, c)).outcome.Panicked?
    ensures longer == events + [Request(sender, text, order, c)] && Possible(c, s, longer)
    ensures After(c, s, longer) == At(Handle(c, w, sender, text, Good(order, c)).world)
  {
    var e := Request(sender, text, order, c);
    longer := events + [e];
    Extend(c, s, events, e);
  }

  lemma AfterOne(w: World, user: string, application: string)
    requires w.tunnels == map[]
    ensures Adopt(w, user, application, 0).tunnels == map[0 := Tunnel(user, application, w.spawned, 0)]
  {
    NewReferenceIsSize(w.tunnels);
  }

  lemma AfterTwo(w: World, t: Tunnel, user: string, application: string)
    requires w.tunnels == map[0 := t]
    ensures Adopt(w, user, application, 0).tunnels == map[0 := t, 1 := Tunnel(user, application, w.spawned, 0)]
  {
    assert |w.tunnels| == 1;
    NewReferenceIsSize(w.tunnels);
  }

  lemma AfterClose(w: World, t: Tunnel, u: Tunnel)
    requires w.tunnels == map[0 := t, 1 := u]
    ensures Release(w, {0}).tunnels == map[1 := u]
    ensures NewReference(Release(w, {0}).tunnels) == 1
  {
    var after := Release(w, {0}).tunnels;
    assert after == map[1 := u];
    assert |after| == 1;
    NewReferenceIsSize(after);
  }

  lemma Start(c: Config, application: string, application': string) returns (w: World)
    requires ApplicationOfName(c.applications, application).Some?
    requires ApplicationOfName(c.applications, application').Some?
    ensures w == World(w.status, map[], 0, {}) && Initial(c, At(w))
    ensures Allows(w.status, application) && Allows(w.status, application')
  {
    GoodStatus(c, application);
    GoodStatus(c, application');
    w := World(GetStatus(c, GoodProbes(c)).value, map[], 0, {});
    assert IsProbed(c, w.status);
  }

  lemma SmallOrders(t: Tunnel, u: Tunnel)
    ensures IsOrder([], map[]) && IsOrder([0], map[0 := t])
    ensures IsOrder([0, 1], map[0 := t, 1 := u]) && IsOrder([1], map[1 := u])
  {
  }

  /** The world with one tunnel that the first opening of a run leaves. */
  function Opened(c: Config, w: World, phone: string, application: string): World
    requires Openable(c, phone, application)
  {
    Adopt(w, UserOfPhone(c.users, phone).value.name, application, 0)
  }

  lemma OpenedHasTunnel(c: Config, w: World, phone: string, application: string)
    requires Openable(c, phone, application) && w.tunnels == map[]
    ensures var tunnels := Opened(c, w, phone, application).tunnels;
            IsOrder([0], tunnels) && 0 in tunnels && tunnels[0].created == 0
  {
    AfterOne(w, UserOfPhone(c.users, phone).value.name, application);
  }

  lemma EmptyHasRoom(c: Config, w: World, user: User, application: string)
    requires w.tunnels == map[] && c.tunnelMax != Some(0) && Allows(w.status, application)
    requires ApplicationOfName(c.applications, application).Some?
    ensures HasRoom(c, w, user, application) && IsOrder([], w.tunnels)
  {
    assert |w.tunnels| == 0;
  }

  lemma FirstOpenSucceeds(c: Config, w: World, phone: string, application: string)
    requires Openable(c, phone, application) && c.tunnelMax != Some(0)
    requires w.tunnels == map[] && Allows(w.status, application)
    ensures IsOrder([], w.tunnels) && Arrives(phone, "open " + application)
    ensures var h := Handle(c, w, phone, "open " + application, Good([], c));
            !h.outcome.Panicked? && h.world == Opened(c, w, phone, application)
  {
    var user := UserOfPhone(c.users, phone).value;
    OpenFits(application);
    OpenRequest(application);
    UrlLineIsRead();
    EmptyHasRoom(c, w, user, application);
    OpeningIsExact(c, w, phone, "open " + application, Good([], c));
    OpenedTunnel(c, w, phone, "open " + application, Good([], c));
  }

  lemma SingleEvent(e: Event, events: seq<Event>)
    requires events == [] + [e]
    ensures events == [e]
  {
  }

  lemma FirstOpening(c: Config, w: World, phone: string, application: string) returns (opening: seq<Event>)
    requires Openable(c, phone, application) && c.tunnelMax != Some(0)
    requires w.tunnels == map[] && Allows(w.status, application)
    ensures opening == [Request(phone, "open " + application, [], c)]
    ensures Possible(c, At(w), opening) && After(c, At(w), opening) == At(Opened(c, w, phone, application))
  {
    FirstOpenSucceeds(c, w, phone, application);
    opening := NextRequest(c, At(w), [], w, phone, "open " + application, []);
    SingleEvent(Request(phone, "open " + application, [], c), opening);
  }

  /** Two tunnels opened, the first closed, and opened once more. */
  lemma TwoTunnelsDisplace(c: Config, phone: string, application: string, phone': string, application': string)
    requires Openable(c, phone, application) && Openable(c, phone', application')
    requires !SameOpening(c, phone, application, phone', application')
    requires c.tunnelMax.Some? ==> c.tunnelMax.value >= 2
    ensures CanDisplace(c)
  {
    var user, user' := UserOfPhone(c.users, phone).value, UserOfPhone(c.users, phone').value;
    var w0 := Start(c, application, application');
    var s := At(w0);
    var t, t' := Tunnel(user.name, application, 0, 0), Tunnel(user'.name, application', 1, 0);
    SmallOrders(t, t');
    var run1 := FirstOpening(c, w0, phone, application);
    AfterOne(w0, user.name, application);
    var w1 := Adopt(w0, user.name, application, 0);
    OpenSucceeds(c, w1, phone', application', [0]);
    AfterTwo(w1, t, user'.name, application');
    var run2 := NextRequest(c, s, run1, w1, phone', "open " + application', [0]);
    var w2 := Adopt(w1, user'.name, application', 0);
    CloseByReference(c, w2, phone, 0, Good([0, 1], c));
    CloseZeroFits();
    AfterClose(w2, t, t');
    var run3 := NextRequest(c, s, run2, w2, phone, "close " + Decimal(0), [0, 1]);
    var w3 := Release(w2, {0});
    OpenSucceeds(c, w3, phone, application, [1]);
    assert Displaces(c, At(w3), Request(phone, "open " + application, [1], c));
  }

  /** Some run displaces a live tunnel unless the configuration allows only one tunnel anyway. */
  lemma DisplacementIsPossible(c: Config)
    ensures CanDisplace(c) <==> !OneTunnelOnly(c)
  {
    if OneTunnelOnly(c) {
      forall s, events, e | Initial(c, s) && Possible(c, s, events) ensures !Displaces(c, After(c, s, events), e) {
        OneTunnelNeverDisplaces(c, s, events, e);
      }
    } else {
      var phone, application, phone', application' :|
        Openable(c, phone, application) && Openable(c, phone', application')
        && !SameOpening(c, phone, application, phone', application');
      TwoTunnelsDisplace(c, phone, application, phone', application');
    }
  }
}
