/** Every command by its word, and every answer by what it stands for, on literal text. */
module Commands {
  import opened Wrappers
  import opened Configuration
  import opened Sequences
  import opened Status
  import opened Text
  import opened TunnelReader
  import opened Tunnels
  import opened Requests
  import opened RequestLaws

  // ---------- The words ----------

  /** The first word of a text is some word in letters of either case. */
  predicate Asks(text: string, lower: string, upper: string)
    requires |lower| == |upper|
  {
    Words(text) != [] && IsWritten(Words(text)[0], lower, upper)
  }

  /** Exactly the texts that ask for a command are it, in whatever case. */
  lemma AskingIsExact(text: string)
    ensures IsCommand(text, "open") <==> Asks(text, "open", "OPEN")
    ensures IsCommand(text, "close") <==> Asks(text, "close", "CLOSE")
    ensures IsCommand(text, "status") <==> Asks(text, "status", "STATUS")
    ensures IsCommand(text, "reboot") <==> Asks(text, "reboot", "REBOOT")
    ensures IsCommand(text, "shutdown") <==> Asks(text, "shutdown", "SHUTDOWN")
  {
    if Words(text) != [] {
      LowerIsWritten(Words(text)[0], "open", "OPEN");
      LowerIsWritten(Words(text)[0], "close", "CLOSE");
      LowerIsWritten(Words(text)[0], "status", "STATUS");
      LowerIsWritten(Words(text)[0], "reboot", "REBOOT");
      LowerIsWritten(Words(text)[0], "shutdown", "SHUTDOWN");
    }
  }

  // ---------- Requests that are not an opening or a closing ----------

  ghost predicate IsUnchanged(w: World, h: Handled) {
    h.world == w && h.email == None && h.register == None
  }

  /** An unknown sender, and a text without a word, change nothing and are refused as such. */
  lemma NothingToDo(c: Config, w: World, sender: string, text: string, a: Answers)
    requires IsOrder(a.order, w.tunnels)
    ensures var h := Handle(c, w, sender, text, a);
            && (UserOfPhone(c.users, sender).None? ==>
                  h.outcome == Failed(SenderNotAllowed(sender)) && IsUnchanged(w, h))
            && (UserOfPhone(c.users, sender).Some? && Words(text) == [] ==>
                  h.outcome == Failed(InvalidRequest(NoCommand)) && IsUnchanged(w, h))
  {
  }

  /**
    Exactly a configured user's `status` whose probes can be read is answered with a report. The cached
    status is then the reported one, by those probes, and nothing else changes; unread probes change
    nothing.
   */
  lemma StatusRequestIsExact(c: Config, w: World, sender: string, text: string, a: Answers)
    requires IsOrder(a.order, w.tunnels)
    ensures var h := Handle(c, w, sender, text, a);
            var asks := UserOfPhone(c.users, sender).Some? && Asks(text, "status", "STATUS");
            && (h.outcome.Done? && h.outcome.value.StatusReport? <==> asks && GetStatus(c, a.probes).Ok?)
            && (asks && GetStatus(c, a.probes).Ok? ==>
                  && h.outcome == Done(StatusReport(GetStatus(c, a.probes).value))
                  && h.world.status == GetStatus(c, a.probes).value
                  && h.world.tunnels == w.tunnels && h.world.spawned == w.spawned && h.world.released == w.released
                  && h.email == None && h.register == None)
            && (asks && GetStatus(c, a.probes).Err? ==>
                  h.outcome == Failed(StatusFailure(GetStatus(c, a.probes).error)) && IsUnchanged(w, h))
  {
    AskingIsExact(text);
    OpenAndCloseAnswers(c, w, sender, text, a);
  }

  /** Exactly a configured user's `shutdown` shuts the router down, and nothing else changes. */
  lemma ShutdownIsExact(c: Config, w: World, sender: string, text: string, a: Answers)
    requires IsOrder(a.order, w.tunnels)
    ensures var h := Handle(c, w, sender, text, a);
            && (h.outcome == Done(ShuttingDown)
                <==> UserOfPhone(c.users, sender).Some? && Asks(text, "shutdown", "SHUTDOWN"))
            && (h.outcome == Done(ShuttingDown) ==> IsUnchanged(w, h))
  {
    AskingIsExact(text);
    OpenAndCloseAnswers(c, w, sender, text, a);
  }

  /** Exactly a configured user's `reboot` reboots it, and registers that user; nothing else changes. */
  lemma RebootIsExact(c: Config, w: World, sender: string, text: string, a: Answers)
    requires IsOrder(a.order, w.tunnels)
    ensures var h := Handle(c, w, sender, text, a);
            && (h.outcome == Done(Rebooting)
                <==> UserOfPhone(c.users, sender).Some? && Asks(text, "reboot", "REBOOT"))
            && (h.outcome == Done(Rebooting) ==>
                  h.world == w && h.email == None && h.register == UserOfPhone(c.users, sender))
  {
    AskingIsExact(text);
    OpenAndCloseAnswers(c, w, sender, text, a);
  }

  predicate AsksOther(text: string) {
    && Words(text) != []
    && !Asks(text, "open", "OPEN") && !Asks(text, "close", "CLOSE") && !Asks(text, "status", "STATUS")
    && !Asks(text, "reboot", "REBOOT") && !Asks(text, "shutdown", "SHUTDOWN")
  }

  /** Exactly a configured user's other words are unknown commands, under the word as it was written. */
  lemma OtherWordsAreUnknown(c: Config, w: World, sender: string, text: string, a: Answers, word: string)
    requires IsOrder(a.order, w.tunnels)
    ensures var h := Handle(c, w, sender, text, a);
            && (h.outcome == Failed(InvalidRequest(UnknownCommand(word)))
                <==> UserOfPhone(c.users, sender).Some? && AsksOther(text) && word == Words(text)[0])
            && (h.outcome == Failed(InvalidRequest(UnknownCommand(word))) ==> IsUnchanged(w, h))
  {
    AskingIsExact(text);
    OpenAndCloseAnswers(c, w, sender, text, a);
  }

  /** What the two other commands never answer. */
  lemma OpenAndCloseAnswers(c: Config, w: World, sender: string, text: string, a: Answers)
    requires IsOrder(a.order, w.tunnels)
    ensures var h := Handle(c, w, sender, text, a);
            UserOfPhone(c.users, sender).Some? && (IsCommand(text, "open") || IsCommand(text, "close")) ==>
              && (h.outcome.Done? ==> h.outcome.value.TunnelOpened? || h.outcome.value.TunnelsClosed?)
              && (h.outcome.Failed? && h.outcome.error.InvalidRequest? ==> !h.outcome.error.reason.UnknownCommand?)
  {
    if UserOfPhone(c.users, sender).Some? && IsCommand(text, "close") {
      var rest := Words(text)[1..];
      if rest == [] {
        CloseAllReasons(w, OwnedBy(a.order, w.tunnels, UserOfPhone(c.users, sender).value.name), a.killFails);
      } else if ParseU32(rest[0]).Some? {
        CloseAllReasons(w, [ParseU32(rest[0]).value], a.killFails);
      }
    }
  }

  lemma {:induction false} CloseAllReasons(w: World, references: seq<u32>, killFails: set<u32>)
    ensures var error := CloseAll(w, references, killFails).error;
            error.Some? && error.value.InvalidRequest? ==> error.value.reason.UnknownReference?
    decreases |references|
  {
    if references != [] && references[0] in w.tunnels && references[0] !in killFails {
      CloseAllReasons(Release(w, {references[0]}), references[1..], killFails);
    }
  }

  // ---------- Closing ----------

  /** `close` and a word closes the tunnel of the number that the word spells, and only that. */
  lemma CloseWordIsExact(c: Config, w: World, sender: string, text: string, a: Answers)
    requires IsOrder(a.order, w.tunnels)
    requires UserOfPhone(c.users, sender).Some? && Asks(text, "close", "CLOSE") && |Words(text)| > 1
    ensures var h, word := Handle(c, w, sender, text, a), Words(text)[1];
            && h.email == None && h.register == None
            && (forall r: u32 :: Spells(word, r) ==>
                  && h.world == (if r in w.tunnels then Release(w, {r}) else w)
                  && h.outcome == (if r !in w.tunnels then Failed(InvalidRequest(UnknownReference(r)))
                                   else if r in a.killFails then Failed(KillFailure)
                                   else Done(TunnelsClosed(false))))
            && ((forall r: u32 :: !Spells(word, r)) ==>
                  h.world == w && h.outcome == Failed(InvalidRequest(InvalidReference(word))))
  {
    AskingIsExact(text);
    var word := Words(text)[1];
    assert Words(text)[1..][0] == word;
    forall r: u32 ensures ParseU32(word) == Some(r) <==> Spells(word, r) {
      ParseIsExact(word, r);
    }
    if ParseU32(word).Some? {
      ReleaseOne(w, ParseU32(word).value, a.killFails);
    }
  }

  /** The positions, in their order, at which a traversal meets a user's tunnels. */
  predicate AreOwned(order: seq<u32>, tunnels: Registry, user: string, at: seq<nat>) {
    && (forall i, j :: 0 <= i < j < |at| ==> at[i] < at[j])
    && (forall i :: 0 <= i < |at| ==> at[i] < |order|)
    && (forall k :: 0 <= k < |order| ==> order[k] in tunnels && (k in at <==> tunnels[order[k]].user == user))
  }

  /** `close` alone goes by the traversal's order. */
  lemma {:induction false} OwnedInOrder(order: seq<u32>, tunnels: Registry, user: string) returns (at: seq<nat>)
    requires forall q :: q in order ==> q in tunnels
    ensures AreOwned(order, tunnels, user, at) && IsPicked(OwnedBy(order, tunnels, user), order, at)
  {
    at := [];
    if order != [] {
      var rest := OwnedInOrder(order[1..], tunnels, user);
      var later := seq(|rest|, i requires 0 <= i < |rest| => rest[i] + 1);
      at := if tunnels[order[0]].user == user then [0] + later else later;
      assert order[0] in order;
      Shifted(order, tunnels, user, rest, later);
      ShiftedElements(order, OwnedBy(order[1..], tunnels, user), rest, later);
    }
  }

  lemma ShiftedElements(order: seq<u32>, owned: seq<u32>, rest: seq<nat>, later: seq<nat>)
    requires order != [] && IsPicked(owned, order[1..], rest)
    requires |later| == |rest| && forall i :: 0 <= i < |rest| ==> later[i] == rest[i] + 1
    ensures IsPicked([] + owned, order, later) && IsPicked([order[0]] + owned, order, [0] + later)
  {
    Empty(owned);
    forall i | 0 <= i < |rest| ensures later[i] < |order| && owned[i] == order[later[i]] {
      assert order[1..][rest[i]] == order[rest[i] + 1];
    }
    PickedFirst(owned, order, later);
  }

  lemma PickedFirst(part: seq<u32>, order: seq<u32>, at: seq<nat>)
    requires order != [] && IsPicked(part, order, at)
    ensures IsPicked([order[0]] + part, order, [0] + at)
  {
  }

  lemma Shifted(order: seq<u32>, tunnels: Registry, user: string, rest: seq<nat>, later: seq<nat>)
    requires order != [] && order[0] in tunnels && AreOwned(order[1..], tunnels, user, rest)
    requires |later| == |rest| && forall i :: 0 <= i < |rest| ==> later[i] == rest[i] + 1
    ensures AreOwned(order, tunnels, user, if tunnels[order[0]].user == user then [0] + later else later)
  {
    var owned := tunnels[order[0]].user == user;
    var at := if owned then [0] + later else later;
    assert 0 !in later;
    forall k | 0 < k < |order| ensures order[k] in tunnels && (k in at <==> tunnels[order[k]].user == user) {
      assert order[1..][k - 1] == order[k];
      if k in at {
        var i :| 0 <= i < |at| && at[i] == k;
        assert rest[if owned then i - 1 else i] == k - 1;
      }
      if k - 1 in rest {
        var i :| 0 <= i < |rest| && rest[i] == k - 1;
        assert at[if owned then i + 1 else i] == k;
      }
    }
  }

  /** `close` alone closes what `BulkCloseSubtracts` says of the user's tunnels. */
  lemma CloseAloneIsBulk(c: Config, w: World, sender: string, text: string, a: Answers)
    requires IsOrder(a.order, w.tunnels)
    requires UserOfPhone(c.users, sender).Some? && Asks(text, "close", "CLOSE") && |Words(text)| == 1
    ensures Handle(c, w, sender, text, a) == Close(w, UserOfPhone(c.users, sender).value, [], a)
  {
    AskingIsExact(text);
    assert Words(text)[1..] == [];
  }

  // ---------- Opening ----------

  /** The services that an opening needs before the application is looked at. */
  predicate ServicesUp(status: Status) {
    status.device == Ready && status.email == Reachable && status.ssh == Reachable
  }

  predicate IsConfiguredName(c: Config, name: string) {
    exists i :: 0 <= i < |c.applications| && c.applications[i].name == name
  }

  /** Which of the checks refuses an opening: for each refusal exactly when. */
  lemma RefusalIsExact(c: Config, w: World, user: User, arguments: seq<string>, order: seq<u32>, e: Error)
    requires IsOrder(order, w.tunnels)
    ensures var refused := CheckOpen(c, w, user, arguments, order) == Err(e);
            var up, status := ServicesUp(w.status), w.status;
            && (e == InvalidRequest(NoApplication) ==> (refused <==> arguments == []))
            && (arguments != [] ==>
                  var name := arguments[0];
                  var reachable := Allows(status, name);
                  var room := c.tunnelMax.Some? ==> |w.tunnels| < c.tunnelMax.value;
                  && (e.InvalidStatus? && e.why.DeviceNotReady? ==>
                        (refused <==> status.device != Ready && e.why.device == status.device))
                  && (e == InvalidStatus(EmailUnreachable) ==>
                        (refused <==> status.device == Ready && status.email == Unreachable))
                  && (e == InvalidStatus(SshUnreachable) ==>
                        (refused <==> status.device == Ready && status.email == Reachable && status.ssh == Unreachable))
                  && (e.InvalidRequest? && e.reason.UnknownApplication? ==>
                        (refused <==> up && !IsConfiguredName(c, name) && e.reason.name == name))
                  && (e.InvalidStatus? && e.why.ApplicationUnreachable? ==>
                        (refused <==> up && IsConfiguredName(c, name) && !reachable && e.why.device == Ready))
                  && (e.InvalidStatus? && e.why.TooManyTunnels? ==>
                        (refused <==> reachable && IsConfiguredName(c, name) && !room
                                      && e.why.lastUser == LastUser(order, w.tunnels)))
                  && (e.InvalidRequest? && e.reason.AlreadyOpen? && refused ==>
                        reachable && IsConfiguredName(c, name) && room && e.reason.reference in w.tunnels
                        && w.tunnels[e.reason.reference].user == user.name
                        && w.tunnels[e.reason.reference].application == name))
  {
    if arguments != [] {
      var index := ApplicationOfName(c.applications, arguments[0]);
      assert index.Some? <==> IsConfiguredName(c, arguments[0]);
    }
  }

  /** A request for an opening is refused exactly by the checks, and then changes nothing. */
  lemma RefusedOpening(c: Config, w: World, sender: string, text: string, a: Answers)
    requires IsOrder(a.order, w.tunnels)
    requires UserOfPhone(c.users, sender).Some? && Asks(text, "open", "OPEN")
    ensures var h, check := Handle(c, w, sender, text, a),
                            CheckOpen(c, w, UserOfPhone(c.users, sender).value, Words(text)[1..], a.order);
            && (check.Err? ==> h.outcome == Failed(check.error) && IsUnchanged(w, h))
            && (check.Err? <==> |Words(text)| == 1
                                || !HasRoom(c, w, UserOfPhone(c.users, sender).value, Words(text)[1]))
  {
    AskingIsExact(text);
    CheckIsExact(c, w, UserOfPhone(c.users, sender).value, Words(text)[1..], a.order);
    assert |Words(text)| > 1 ==> Words(text)[1..][0] == Words(text)[1];
  }

  /** A child was spawned and released, and nothing else has changed. */
  ghost predicate IsDiscarded(w: World, after: World) {
    && after.status == w.status && after.tunnels == w.tunnels
    && after.spawned == w.spawned + 1 && after.released == w.released + {w.spawned}
  }

  /** What comes of an opening that passes its checks: by ssh, by what it writes, and by the mail. */
  lemma CheckedOpening(c: Config, w: World, sender: string, text: string, a: Answers)
    requires IsOrder(a.order, w.tunnels)
    requires UserOfPhone(c.users, sender).Some? && Asks(text, "open", "OPEN") && |Words(text)| > 1
    requires HasRoom(c, w, UserOfPhone(c.users, sender).value, Words(text)[1])
    ensures var h, user, name := Handle(c, w, sender, text, a), UserOfPhone(c.users, sender).value, Words(text)[1];
            var application := c.applications[ApplicationOfName(c.applications, name).value];
            var url := ReadUrl(a.output);
            && h.register == None
            && (a.spawnFails ==> h.outcome == Failed(IoFailure) && h.world == w && h.email == None)
            && (!a.spawnFails && url.Err? ==>
                  && h.outcome == (if a.stderrPanics then Panicked else Failed(SetupFailure(url.error)))
                  && IsDiscarded(w, h.world) && h.email == None)
            && (!a.spawnFails && url.Ok? ==>
                  h.email == Some(Email(user.email, user.name, name, url.value, application.endPoint)))
            && (!a.spawnFails && url.Ok? && !a.emailSent ==>
                  h.outcome == Failed(EmailFailure) && IsDiscarded(w, h.world))
            && (!a.spawnFails && url.Ok? && a.emailSent ==>
                  h.outcome == Done(TunnelOpened(|w.tunnels| % 0x1_0000_0000)))
  {
    AskingIsExact(text);
    var user := UserOfPhone(c.users, sender).value;
    assert Words(text)[1..][0] == Words(text)[1];
    CheckIsExact(c, w, user, Words(text)[1..], a.order);
  }

  /** The tunnel that a refusal for the limit is about is the last of the latest that the traversal meets. */
  lemma {:induction false} LatestIsLast(order: seq<u32>, tunnels: Registry) returns (i: nat)
    requires order != [] && forall q :: q in order ==> q in tunnels
    ensures i < |order| && Latest(order, tunnels) == Some(order[i])
    ensures LastUser(order, tunnels) == Some(tunnels[order[i]].user)
    ensures forall j :: 0 <= j < |order| ==> order[j] in tunnels
    ensures forall j :: 0 <= j < i ==> tunnels[order[j]].created <= tunnels[order[i]].created
    ensures forall j :: i < j < |order| ==> tunnels[order[j]].created < tunnels[order[i]].created
  {
    i := 0;
    assert forall j :: 0 <= j < |order| ==> order[j] in order;
    if |order| > 1 {
      var later := LatestIsLast(order[1..], tunnels);
      if tunnels[order[0]].created <= tunnels[order[later + 1]].created {
        i := later + 1;
      }
    }
  }
}
