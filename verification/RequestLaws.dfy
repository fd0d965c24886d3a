/** What every request keeps, what a failing one leaves alone, and what closing and opening do exactly. */
module RequestLaws {
  import opened Wrappers
  import opened Configuration
  import opened Status
  import opened Text
  import opened TunnelReader
  import opened Tunnels
  import opened Requests

  /** The status allows opening a tunnel to the application of a name. */
  predicate Allows(status: Status, application: string) {
    && status.device == Ready && status.email == Reachable && status.ssh == Reachable
    && application in status.applications && status.applications[application] == Reachable
  }

  /** A user whose requests are served, and an application that an argument can name. */
  predicate IsServed(c: Config, phone: string, application: string) {
    && UserOfPhone(c.users, phone).Some?
    && ApplicationOfName(c.applications, application).Some? && IsWord(application)
  }

  ghost predicate IsConfigured(c: Config, t: Tunnel) {
    exists phone :: IsServed(c, phone, t.application) && UserOfPhone(c.users, phone).value.name == t.user
  }

  ghost predicate Invariant(c: Config, w: World) {
    && Conserved(w)
    && Unpaired(w.tunnels)
    && Within(c.tunnelMax, w.tunnels)
    && (forall r :: r in w.tunnels ==> IsConfigured(c, w.tunnels[r]))
    && IsProbed(c, w.status)
  }

  lemma ReleaseKeeps(c: Config, w: World, references: set<u32>)
    requires Invariant(c, w)
    ensures Invariant(c, Release(w, references))
  {
    ReleaseConserves(w, references);
    ReleaseKeepsLimits(c.tunnelMax, w, references);
  }

  /** What an opening needs of the world: a status that allows it, room below the limit, and no tunnel yet. */
  ghost predicate HasRoom(c: Config, w: World, user: User, application: string) {
    && ApplicationOfName(c.applications, application).Some?
    && Allows(w.status, application)
    && (c.tunnelMax.Some? ==> |w.tunnels| < c.tunnelMax.value)
    && (forall r :: r in w.tunnels ==> w.tunnels[r].user != user.name || w.tunnels[r].application != application)
  }

  /** The checks of `open` let exactly those openings through, for the application of the name. */
  lemma CheckIsExact(c: Config, w: World, user: User, arguments: seq<string>, order: seq<u32>)
    requires IsOrder(order, w.tunnels)
    ensures var check := CheckOpen(c, w, user, arguments, order);
            && (check.Ok? <==> arguments != [] && HasRoom(c, w, user, arguments[0]))
            && (check.Ok? ==> ApplicationOfName(c.applications, arguments[0]) == Some(check.value)
                              && c.applications[check.value].name == arguments[0])
  {
  }

  /**
    An opening refused for a tunnel that is open already names such a tunnel, and one refused for the
    limit names the user of a latest tunnel, if there is a tunnel. One refused for an application that
    is not reachable names the status of the device in the application's place, which is Ready.
   */
  lemma RefusalsAreTrue(c: Config, w: World, user: User, arguments: seq<string>, order: seq<u32>)
    requires IsOrder(order, w.tunnels) && CheckOpen(c, w, user, arguments, order).Err?
    ensures var error := CheckOpen(c, w, user, arguments, order).error;
            && (error.InvalidRequest? && error.reason.AlreadyOpen? ==>
                  && error.reason.reference in w.tunnels && arguments != []
                  && w.tunnels[error.reason.reference].user == user.name
                  && w.tunnels[error.reason.reference].application == arguments[0])
            && (error.InvalidStatus? && error.why.ApplicationUnreachable? ==>
                  && error.why.device == Ready && arguments != []
                  && ApplicationOfName(c.applications, arguments[0]).Some? && !Allows(w.status, arguments[0]))
            && (error.InvalidStatus? && error.why.TooManyTunnels? ==>
                  && c.tunnelMax.Some? && |w.tunnels| >= c.tunnelMax.value
                  && (error.why.lastUser.None? <==> w.tunnels == map[])
                  && (error.why.lastUser.Some? ==> OpenedLast(w.tunnels, error.why.lastUser.value)))
  {
    var latest := Latest(order, w.tunnels);
    if latest.Some? {
      assert IsLatest(w.tunnels, latest.value);
    }
  }

  ghost predicate IsLatest(tunnels: Registry, r: u32) {
    r in tunnels && forall q :: q in tunnels ==> tunnels[q].created <= tunnels[r].created
  }

  ghost predicate OpenedLast(tunnels: Registry, user: string) {
    exists r :: IsLatest(tunnels, r) && tunnels[r].user == user
  }

  lemma AdoptKeeps(c: Config, w: World, phone: string, application: string, created: nat)
    requires Invariant(c, w)
    requires IsServed(c, phone, application)
    requires c.tunnelMax.Some? ==> |w.tunnels| < c.tunnelMax.value
    requires forall r :: r in w.tunnels ==> w.tunnels[r].user != UserOfPhone(c.users, phone).value.name
                                            || w.tunnels[r].application != application
    ensures Invariant(c, Adopt(w, UserOfPhone(c.users, phone).value.name, application, created))
  {
    var user := UserOfPhone(c.users, phone).value.name;
    AdoptConserves(w, user, application, created);
    AdoptKeepsLimits(c.tunnelMax, w, user, application, created);
    AdoptKeepsConfigured(c, w, phone, application, created);
  }

  lemma AdoptKeepsConfigured(c: Config, w: World, phone: string, application: string, created: nat)
    requires forall r :: r in w.tunnels ==> IsConfigured(c, w.tunnels[r])
    requires IsServed(c, phone, application)
    ensures var after := Adopt(w, UserOfPhone(c.users, phone).value.name, application, created);
            forall r :: r in after.tunnels ==> IsConfigured(c, after.tunnels[r])
  {
    assert IsConfigured(c, Tunnel(UserOfPhone(c.users, phone).value.name, application, w.spawned, created));
  }

  lemma DiscardKeeps(c: Config, w: World)
    requires Invariant(c, w)
    ensures Invariant(c, Discard(w))
  {
    DiscardConserves(w);
  }

  /** The three worlds an opening can leave: unchanged, one child more and released, one tunnel more. */
  lemma OpenWorlds(c: Config, w: World, user: User, arguments: seq<string>, a: Answers)
    requires IsOrder(a.order, w.tunnels)
    ensures var h, check := Open(c, w, user, arguments, a), CheckOpen(c, w, user, arguments, a.order);
            && (h.world == w || h.world == Discard(w) || h.outcome.Done?)
            && (h.outcome.Done? ==>
                  && check.Ok? && arguments != []
                  && h.world == Adopt(w, user.name, arguments[0], a.created)
                  && h.outcome.value == TunnelOpened(NewReference(w.tunnels)))
  {
    if CheckOpen(c, w, user, arguments, a.order).Ok? {
      CheckIsExact(c, w, user, arguments, a.order);
    }
  }

  lemma OpenKeeps(c: Config, w: World, phone: string, arguments: seq<string>, a: Answers)
    requires Invariant(c, w) && IsOrder(a.order, w.tunnels)
    requires UserOfPhone(c.users, phone).Some?
    requires forall i :: 0 <= i < |arguments| ==> IsWord(arguments[i])
    ensures Invariant(c, Open(c, w, UserOfPhone(c.users, phone).value, arguments, a).world)
  {
    var user := UserOfPhone(c.users, phone).value;
    OpenWorlds(c, w, user, arguments, a);
    DiscardKeeps(c, w);
    if Open(c, w, user, arguments, a).outcome.Done? {
      CheckIsExact(c, w, user, arguments, a.order);
      AdoptKeeps(c, w, phone, arguments[0], a.created);
    }
  }

  /** Closing any references releases some of them. */
  lemma {:induction false} CloseAllReleases(w: World, references: seq<u32>, killFails: set<u32>)
    returns (taken: set<u32>)
    ensures CloseAll(w, references, killFails).world == Release(w, taken)
    decreases |references|
  {
    ReleaseNone(w);
    taken := {};
    if references != [] && references[0] in w.tunnels {
      var r := references[0];
      taken := {r};
      if r !in killFails {
        var rest := CloseAllReleases(Release(w, {r}), references[1..], killFails);
        ReleaseAgain(w, r, rest);
        taken := {r} + rest;
      }
    }
  }

  lemma ReleaseAgain(w: World, r: u32, others: set<u32>)
    ensures Release(Release(w, {r}), others) == Release(w, {r} + others)
  {
    ReleaseTwice(w, r, others - {r});
    assert {r} + (others - {r}) == {r} + others;
    assert Release(Release(w, {r}), others) == Release(Release(w, {r}), others - {r}) by {
      var t := w.tunnels - {r};
      assert t - others == t - (others - {r});
      assert Children(t, others) == Children(t, others - {r});
    }
  }

  /** Every closing, successful or not, releases some tunnels and changes nothing else. */
  lemma CloseWorlds(w: World, user: User, arguments: seq<string>, a: Answers) returns (taken: set<u32>)
    requires IsOrder(a.order, w.tunnels)
    ensures Close(w, user, arguments, a).world == Release(w, taken)
  {
    ReleaseNone(w);
    if arguments == [] {
      taken := CloseAllReleases(w, OwnedBy(a.order, w.tunnels, user.name), a.killFails);
    } else if ParseU32(arguments[0]).Some? {
      taken := CloseAllReleases(w, [ParseU32(arguments[0]).value], a.killFails);
    } else {
      taken := {};
    }
  }

  lemma CloseKeeps(c: Config, w: World, user: User, arguments: seq<string>, a: Answers)
    requires Invariant(c, w) && IsOrder(a.order, w.tunnels)
    ensures Invariant(c, Close(w, user, arguments, a).world)
  {
    var taken := CloseWorlds(w, user, arguments, a);
    ReleaseKeeps(c, w, taken);
  }

  lemma RefreshKeeps(c: Config, w: World, a: Answers)
    requires Invariant(c, w)
    ensures Invariant(c, Refresh(c, w, a).world)
  {
  }

  /** Which worlds a request can leave. */
  lemma HandleWorlds(c: Config, w: World, sender: string, text: string, a: Answers)
    requires IsOrder(a.order, w.tunnels)
    ensures var user, after := UserOfPhone(c.users, sender), Handle(c, w, sender, text, a).world;
            || after == w
            || (user.Some? && Words(text) != []
                && (|| after == Open(c, w, user.value, Words(text)[1..], a).world
                    || after == Close(w, user.value, Words(text)[1..], a).world
                    || after == Refresh(c, w, a).world))
  {
  }

  /** Every request, whatever it asks and whatever fails on the way, keeps the registry's invariant. */
  lemma RequestKeepsInvariant(c: Config, w: World, sender: string, text: string, a: Answers)
    requires Invariant(c, w) && IsOrder(a.order, w.tunnels)
    ensures Invariant(c, Handle(c, w, sender, text, a).world)
  {
    var user := UserOfPhone(c.users, sender);
    HandleWorlds(c, w, sender, text, a);
    if user.Some? && Words(text) != [] {
      OpenKeeps(c, w, sender, Words(text)[1..], a);
      CloseKeeps(c, w, user.value, Words(text)[1..], a);
      RefreshKeeps(c, w, a);
    }
  }

  // ---------- Closing ----------

  /**
    `close` without a reference, exactly: it is refused when the user has no tunnel; otherwise it
    never meets an unknown reference, and it takes out the user's tunnels up to and including the
    first whose kill fails, all of them if none fails, and nothing else.
   */
  lemma BulkCloseSubtracts(w: World, user: User, a: Answers)
    requires IsOrder(a.order, w.tunnels)
    ensures var h, owned := Close(w, user, [], a), OwnedBy(a.order, w.tunnels, user.name);
            var k := Taken(owned, a.killFails);
            && (forall r :: r in owned <==> r in w.tunnels && w.tunnels[r].user == user.name)
            && h.world == Release(w, Elements(owned[..k]))
            && h.outcome == (if owned == [] then Failed(InvalidRequest(NoOpenTunnel))
                             else if AnyFails(owned, a.killFails) then Failed(KillFailure)
                             else Done(TunnelsClosed(|owned| > 1)))
  {
    var owned := OwnedBy(a.order, w.tunnels, user.name);
    OwnedByDistinct(a.order, w.tunnels, user.name);
    forall i | 0 <= i < |owned| ensures owned[i] in w.tunnels {
      assert owned[i] in owned;
    }
    CloseAllTakes(w, owned, a.killFails);
    ClosedEnd(w, owned, a.killFails);
  }

  /** After a bulk close that succeeds no tunnel of the user is left, and all others are as they were. */
  lemma BulkCloseLeavesOthers(w: World, user: User, a: Answers)
    requires IsOrder(a.order, w.tunnels)
    requires Close(w, user, [], a).outcome.Done?
    ensures var after := Close(w, user, [], a).world.tunnels;
            forall r :: r in after <==> r in w.tunnels && w.tunnels[r].user != user.name
    ensures Kept(Close(w, user, [], a).world.tunnels, w.tunnels)
  {
    var owned := OwnedBy(a.order, w.tunnels, user.name);
    BulkCloseSubtracts(w, user, a);
    assert Taken(owned, a.killFails) == |owned|;
    assert owned[..|owned|] == owned;
    assert forall r :: r in Elements(owned) <==> r in owned;
  }

  lemma ReleaseOne(w: World, r: u32, killFails: set<u32>)
    ensures CloseAll(w, [r], killFails) ==
            if r !in w.tunnels then Closing(w, Some(InvalidRequest(UnknownReference(r))))
            else Closing(Release(w, {r}), if r in killFails then Some(KillFailure) else None)
  {
    assert [r][1..] == [];
    assert CloseAll(Release(w, {r}), [], killFails) == Closing(Release(w, {r}), None);
  }

  lemma CloseRequest(r: u32)
    ensures Words("close " + Decimal(r)) == ["close", Decimal(r)]
    ensures Lower("close") == "close"
  {
    var digits := Decimal(r);
    forall i | 0 <= i < |digits| ensures !IsWhitespace(digits[i]) {
      assert IsDigit(digits[i]);
    }
    assert "close " + digits == "close" + " " + digits;
    TwoWords("close", digits);
  }

  /**
    Any user's request `close <reference>`, with the reference as an acknowledgement prints it, takes
    out that tunnel and no other, even when the kill fails; without such a tunnel nothing changes.
   */
  lemma CloseByReference(c: Config, w: World, sender: string, r: u32, a: Answers)
    requires IsOrder(a.order, w.tunnels) && UserOfPhone(c.users, sender).Some?
    ensures var h := Handle(c, w, sender, "close " + Decimal(r), a);
            && h.world == (if r in w.tunnels then Release(w, {r}) else w)
            && h.outcome == (if r !in w.tunnels then Failed(InvalidRequest(UnknownReference(r)))
                             else if r in a.killFails then Failed(KillFailure)
                             else Done(TunnelsClosed(false)))
  {
    CloseRequest(r);
    ParseDecimal(r);
    ReleaseOne(w, r, a.killFails);
    assert ["close", Decimal(r)][1..] == [Decimal(r)];
  }

  // ---------- Opening ----------

  ghost predicate IsCommand(text: string, command: string) {
    Words(text) != [] && Lower(Words(text)[0]) == command
  }

  /** Only an opening acknowledges a tunnel, and what it stands for. */
  lemma OpenedTunnel(c: Config, w: World, sender: string, text: string, a: Answers)
    requires IsOrder(a.order, w.tunnels)
    requires var h := Handle(c, w, sender, text, a); h.outcome.Done? && h.outcome.value.TunnelOpened?
    ensures IsCommand(text, "open") && |Words(text)| > 1
    ensures UserOfPhone(c.users, sender).Some? && Allows(w.status, Words(text)[1])
    ensures ApplicationOfName(c.applications, Words(text)[1]).Some? && IsServed(c, sender, Words(text)[1])
    ensures !a.spawnFails && ReadUrl(a.output).Ok? && a.emailSent
    ensures var h, user := Handle(c, w, sender, text, a), UserOfPhone(c.users, sender).value;
            var application := c.applications[ApplicationOfName(c.applications, Words(text)[1]).value];
            && h.outcome.value.reference == NewReference(w.tunnels)
            && h.world == Adopt(w, user.name, application.name, a.created)
            && application.name == Words(text)[1]
            && h.email == Some(Email(user.email, user.name, application.name, ReadUrl(a.output).value,
                                     application.endPoint))
  {
    var words := Words(text);
    var user := UserOfPhone(c.users, sender).value;
    OpenIsOnlyOpening(c, w, sender, text, a);
    OpenWorlds(c, w, user, words[1..], a);
    CheckIsExact(c, w, user, words[1..], a.order);
  }

  /** A tunnel is opened exactly when every check passes and ssh, its URL and the mail all succeed. */
  lemma OpeningIsExact(c: Config, w: World, sender: string, text: string, a: Answers)
    requires IsOrder(a.order, w.tunnels)
    ensures var h, user, words := Handle(c, w, sender, text, a), UserOfPhone(c.users, sender), Words(text);
            h.outcome.Done? && h.outcome.value.TunnelOpened?
            <==> user.Some? && IsCommand(text, "open") && |words| > 1 && HasRoom(c, w, user.value, words[1])
                 && !a.spawnFails && ReadUrl(a.output).Ok? && a.emailSent
  {
    var user, words := UserOfPhone(c.users, sender), Words(text);
    if user.Some? && words != [] {
      OpenIsExact(c, w, user.value, words[1..], a);
      assert |words| > 1 ==> words[1..][0] == words[1];
    }
    if Handle(c, w, sender, text, a).outcome.Done? && Handle(c, w, sender, text, a).outcome.value.TunnelOpened? {
      OpenIsOnlyOpening(c, w, sender, text, a);
    }
  }

  lemma OpenIsExact(c: Config, w: World, user: User, arguments: seq<string>, a: Answers)
    requires IsOrder(a.order, w.tunnels)
    ensures var h := Open(c, w, user, arguments, a);
            h.outcome.Done? && h.outcome.value.TunnelOpened?
            <==> arguments != [] && HasRoom(c, w, user, arguments[0])
                 && !a.spawnFails && ReadUrl(a.output).Ok? && a.emailSent
  {
    CheckIsExact(c, w, user, arguments, a.order);
  }

  lemma OpenIsOnlyOpening(c: Config, w: World, sender: string, text: string, a: Answers)
    requires IsOrder(a.order, w.tunnels)
    requires var h := Handle(c, w, sender, text, a); h.outcome.Done? && h.outcome.value.TunnelOpened?
    ensures IsCommand(text, "open") && UserOfPhone(c.users, sender).Some?
    ensures Handle(c, w, sender, text, a)
         == Open(c, w, UserOfPhone(c.users, sender).value, Words(text)[1..], a)
  {
  }

  /**
    A successful opening leaves every other tunnel alone exactly when the reference `len()` was not
    live; otherwise it displaces the tunnel there.
   */
  lemma OpeningDisplaces(c: Config, w: World, sender: string, text: string, a: Answers)
    requires IsOrder(a.order, w.tunnels) && Conserved(w)
    requires var h := Handle(c, w, sender, text, a); h.outcome.Done? && h.outcome.value.TunnelOpened?
    ensures var after, r := Handle(c, w, sender, text, a).world, NewReference(w.tunnels);
            && (Kept(w.tunnels, after.tunnels) <==> r !in w.tunnels)
            && |after.tunnels| == |w.tunnels| + (if r in w.tunnels then 0 else 1)
            && (r in w.tunnels ==> w.tunnels[r].process in after.released)
  {
    OpenedTunnel(c, w, sender, text, a);
    AllocatorIsExact(w, UserOfPhone(c.users, sender).value.name, Words(text)[1], a.created);
  }

  // ---------- Failing ----------

  /**
    A request that fails, unless it is a `close`, leaves the status and the registry as they were,
    and every child that it spawned is released.
   */
  lemma FailureIsAtomic(c: Config, w: World, sender: string, text: string, a: Answers)
    requires IsOrder(a.order, w.tunnels)
    requires !Handle(c, w, sender, text, a).outcome.Done? && !IsCommand(text, "close")
    ensures var h := Handle(c, w, sender, text, a);
            (h.world == w || h.world == Discard(w)) && h.register == None
  {
    var user := UserOfPhone(c.users, sender);
    if user.Some? && IsCommand(text, "open") {
      FailedOpen(c, w, user.value, Words(text)[1..], a);
    }
  }

  lemma FailedOpen(c: Config, w: World, user: User, arguments: seq<string>, a: Answers)
    requires IsOrder(a.order, w.tunnels)
    requires !Open(c, w, user, arguments, a).outcome.Done?
    ensures var h := Open(c, w, user, arguments, a); (h.world == w || h.world == Discard(w)) && h.register == None
  {
  }

  /** Exactly a configured user's `reboot` registers that user for the restart notification. */
  lemma RebootRegistersSender(c: Config, w: World, sender: string, text: string, a: Answers)
    requires IsOrder(a.order, w.tunnels)
    ensures Handle(c, w, sender, text, a).register
         == if IsCommand(text, "reboot") then UserOfPhone(c.users, sender) else None
  {
  }
}
