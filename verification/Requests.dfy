/**
  `handle_request` as a function of the world and of what the environment answers; the methods of
  `Contexts.Context` are proved against it.
 */
module Requests {
  import opened Wrappers
  import opened Configuration
  import opened Status
  import opened Text
  import opened TunnelReader
  import opened Tunnels

  datatype InvalidReason =
    | NoCommand | UnknownCommand(command: string)
    | NoApplication | UnknownApplication(name: string) | AlreadyOpen(reference: u32)
    | InvalidReference(text: string) | NoOpenTunnel | UnknownReference(reference: u32)

  datatype StatusReason =
    | DeviceNotReady(device: DeviceStatus) | EmailUnreachable | SshUnreachable
    | ApplicationUnreachable(device: DeviceStatus) | TooManyTunnels(lastUser: Option<string>)

  datatype Error =
    | SenderNotAllowed(sender: string) | InvalidRequest(reason: InvalidReason) | InvalidStatus(why: StatusReason)
    | IoFailure | SetupFailure(setup: ReaderError) | EmailFailure | KillFailure | StatusFailure(status: StatusError)

  datatype Ack =
    | TunnelOpened(reference: u32) | TunnelsClosed(several: bool) | StatusReport(status: Status)
    | Rebooting | ShuttingDown

  /** The mail with the tunnel's URL, which the application's end point completes. */
  datatype Email = Email(to: string, user: string, application: string, url: seq<nat>, endPoint: string)

  /**
    What the environment contributes to one request: the order in which the hash map is traversed,
    the references whose child cannot be killed, whether ssh can be spawned, what it writes before
    the setup timeout, whether reading its error output panics, whether the mail is sent, the
    time at which a tunnel is created, and the answers to a status request.
   */
  datatype Answers = Answers(order: seq<u32>, killFails: set<u32>, spawnFails: bool, output: seq<Portion>,
                             stderrPanics: bool, emailSent: bool, created: nat, probes: Probes)

  /** The world afterwards, the result, the mail that was attempted, and the user registered for restart. */
  datatype Handled = Handled(world: World, outcome: Outcome<Ack, Error>, email: Option<Email>, register: Option<User>)

  function Unhandled(w: World, e: Error): Handled {
    Handled(w, Failed(e), None, None)
  }

  /** The first tunnel of a user and an application that a traversal meets. */
  function FindPair(order: seq<u32>, tunnels: Registry, user: string, application: string): (r: Option<u32>)
    requires forall q :: q in order ==> q in tunnels
    ensures r.Some? ==> r.value in order
                        && tunnels[r.value].user == user && tunnels[r.value].application == application
    ensures r.None? ==> forall q ::
              q in order ==> tunnels[q].user != user || tunnels[q].application != application
  {
    if order == [] then None
    else if tunnels[order[0]].user == user && tunnels[order[0]].application == application then Some(order[0])
    else FindPair(order[1..], tunnels, user, application)
  }

  /** The last of the latest tunnels that a traversal meets, as `max_by` chooses it. */
  function Latest(order: seq<u32>, tunnels: Registry): (r: Option<u32>)
    requires forall q :: q in order ==> q in tunnels
    ensures r.None? <==> order == []
    ensures r.Some? ==> r.value in order
    ensures r.Some? ==> forall q :: q in order ==> tunnels[q].created <= tunnels[r.value].created
  {
    if order == [] then None
    else match Latest(order[1..], tunnels)
      case None => Some(order[0])
      case Some(r) => if tunnels[order[0]].created > tunnels[r].created then Some(order[0]) else Some(r)
  }

  /** The references of a user's tunnels, in the order of a traversal. */
  function OwnedBy(order: seq<u32>, tunnels: Registry, user: string): (references: seq<u32>)
    requires forall q :: q in order ==> q in tunnels
    ensures forall r :: r in references <==> r in order && tunnels[r].user == user
  {
    if order == [] then []
    else (if tunnels[order[0]].user == user then [order[0]] else []) + OwnedBy(order[1..], tunnels, user)
  }

  /** The checks of `open` before anything is spawned, in their order; the application's position. */
  function CheckOpen(c: Config, w: World, user: User, arguments: seq<string>, order: seq<u32>)
      : (r: Result<nat, Error>)
    requires IsOrder(order, w.tunnels)
    ensures r.Ok? ==> r.value < |c.applications|
  {
    if arguments == [] then Err(InvalidRequest(NoApplication))
    else
      var name := arguments[0];
      if w.status.device != Ready then Err(InvalidStatus(DeviceNotReady(w.status.device)))
      else if w.status.email != Reachable then Err(InvalidStatus(EmailUnreachable))
      else if w.status.ssh != Reachable then Err(InvalidStatus(SshUnreachable))
      else match ApplicationOfName(c.applications, name)
        case None => Err(InvalidRequest(UnknownApplication(name)))
        case Some(application) =>
          if name !in w.status.applications || w.status.applications[name] != Reachable then
            Err(InvalidStatus(ApplicationUnreachable(w.status.device)))
          else if c.tunnelMax.Some? && |w.tunnels| >= c.tunnelMax.value then
            Err(InvalidStatus(TooManyTunnels(LastUser(order, w.tunnels))))
          else match FindPair(order, w.tunnels, user.name, c.applications[application].name)
            case Some(r) => Err(InvalidRequest(AlreadyOpen(r)))
            case None => Ok(application)
  }

  function LastUser(order: seq<u32>, tunnels: Registry): Option<string>
    requires forall q :: q in order ==> q in tunnels
  {
    match Latest(order, tunnels)
    case None => None
    case Some(r) => Some(tunnels[r].user)
  }

  /** Spawning ssh, reading its URL, sending the mail, and only then storing the tunnel. */
  function OpenTunnel(w: World, user: User, application: Application, a: Answers): Handled {
    if a.spawnFails then Unhandled(w, IoFailure)
    else match ReadUrl(a.output)
      case Err(e) => Handled(Discard(w), if a.stderrPanics then Panicked else Failed(SetupFailure(e)), None, None)
      case Ok(url) =>
        var email := Email(user.email, user.name, application.name, url, application.endPoint);
        if !a.emailSent then Handled(Discard(w), Failed(EmailFailure), Some(email), None)
        else Handled(Adopt(w, user.name, application.name, a.created),
                     Done(TunnelOpened(NewReference(w.tunnels))), Some(email), None)
  }

  function Open(c: Config, w: World, user: User, arguments: seq<string>, a: Answers): Handled
    requires IsOrder(a.order, w.tunnels)
  {
    match CheckOpen(c, w, user, arguments, a.order)
    case Err(e) => Unhandled(w, e)
    case Ok(application) => OpenTunnel(w, user, c.applications[application], a)
  }

  datatype Closing = Closing(world: World, error: Option<Error>)

  /** Takes tunnels out one by one; the entry taken out is dropped even when its kill fails. */
  function CloseAll(w: World, references: seq<u32>, killFails: set<u32>): Closing
    decreases |references|
  {
    if references == [] then Closing(w, None)
    else
      var r := references[0];
      if r !in w.tunnels then Closing(w, Some(InvalidRequest(UnknownReference(r))))
      else if r in killFails then Closing(Release(w, {r}), Some(KillFailure))
      else CloseAll(Release(w, {r}), references[1..], killFails)
  }

  function Close(w: World, user: User, arguments: seq<string>, a: Answers): Handled
    requires IsOrder(a.order, w.tunnels)
  {
    if arguments == [] then
      var references := OwnedBy(a.order, w.tunnels, user.name);
      if references == [] then Unhandled(w, InvalidRequest(NoOpenTunnel)) else CloseReferences(w, references, a)
    else match ParseU32(arguments[0])
      case None => Unhandled(w, InvalidRequest(InvalidReference(arguments[0])))
      case Some(r) => CloseReferences(w, [r], a)
  }

  function CloseReferences(w: World, references: seq<u32>, a: Answers): Handled {
    var closing := CloseAll(w, references, a.killFails);
    match closing.error
    case Some(e) => Unhandled(closing.world, e)
    case None => Handled(closing.world, Done(TunnelsClosed(|references| > 1)), None, None)
  }

  function Refresh(c: Config, w: World, a: Answers): Handled {
    match GetStatus(c, a.probes)
    case Err(e) => Unhandled(w, StatusFailure(e))
    case Ok(status) => Handled(w.(status := status), Done(StatusReport(status)), None, None)
  }

  function Handle(c: Config, w: World, sender: string, text: string, a: Answers): Handled
    requires IsOrder(a.order, w.tunnels)
  {
    match UserOfPhone(c.users, sender)
    case None => Unhandled(w, SenderNotAllowed(sender))
    case Some(user) =>
      var words := Words(text);
      if words == [] then Unhandled(w, InvalidRequest(NoCommand))
      else
        var command := Lower(words[0]);
        if command == "open" then Open(c, w, user, words[1..], a)
        else if command == "close" then Close(w, user, words[1..], a)
        else if command == "status" then Refresh(c, w, a)
        else if command == "reboot" then Handled(w, Done(Rebooting), None, Some(user))
        else if command == "shutdown" then Handled(w, Done(ShuttingDown), None, None)
        else Unhandled(w, InvalidRequest(UnknownCommand(words[0])))
  }

  // ---------- Closing ----------

  /** How many references are taken out: all of them, or those up to the first failing kill. */
  function Taken(references: seq<u32>, killFails: set<u32>): (k: nat)
    ensures k <= |references|
    ensures k < |references| ==> k > 0 && references[k - 1] in killFails
    ensures forall i :: 0 <= i < k - 1 ==> references[i] !in killFails
    ensures (exists i :: 0 <= i < |references| && references[i] in killFails) <==>
            k > 0 && references[k - 1] in killFails
  {
    if references == [] then 0
    else if references[0] in killFails then 1
    else 1 + Taken(references[1..], killFails)
  }

  lemma ReleaseNone(w: World)
    ensures Release(w, {}) == w
  {
    assert w.tunnels - {} == w.tunnels;
    assert w.released + Children(w.tunnels, {}) == w.released;
  }

  lemma ReleaseTwice(w: World, r: u32, others: set<u32>)
    requires r !in others
    ensures Release(Release(w, {r}), others) == Release(w, {r} + others)
  {
    assert w.tunnels - {r} - others == w.tunnels - ({r} + others);
    forall p ensures p in Children(w.tunnels, {r}) + Children(w.tunnels - {r}, others)
                     <==> p in Children(w.tunnels, {r} + others) {
      if p in Children(w.tunnels, {r} + others) {
        var q :| q in {r} + others && q in w.tunnels && w.tunnels[q].process == p;
        assert q == r || q in w.tunnels - {r};
      }
    }
    assert w.released + Children(w.tunnels, {r}) + Children(w.tunnels - {r}, others)
        == w.released + Children(w.tunnels, {r} + others);
  }

  predicate AnyFails(references: seq<u32>, killFails: set<u32>) {
    exists i :: 0 <= i < |references| && references[i] in killFails
  }

  /** What closing distinct live references comes to. */
  function Closed(w: World, references: seq<u32>, killFails: set<u32>): Closing {
    Closing(Release(w, Elements(references[..Taken(references, killFails)])),
            if AnyFails(references, killFails) then Some(KillFailure) else None)
  }

  lemma ClosedStep(w: World, references: seq<u32>, killFails: set<u32>)
    requires references != [] && references[0] !in killFails && references[0] !in references[1..]
    ensures Closed(w, references, killFails) == Closed(Release(w, {references[0]}), references[1..], killFails)
  {
    var r, rest := references[0], references[1..];
    var k := Taken(rest, killFails);
    ReleaseTwice(w, r, Elements(rest[..k]));
    assert references[..k + 1] == [r] + rest[..k];
    assert Elements(references[..k + 1]) == {r} + Elements(rest[..k]);
    assert AnyFails(references, killFails) <==> AnyFails(rest, killFails) by {
      assert forall i :: 0 < i < |references| ==> references[i] == rest[i - 1];
    }
  }

  lemma ClosedEnd(w: World, references: seq<u32>, killFails: set<u32>)
    ensures references == [] ==> Closed(w, references, killFails) == Closing(w, None)
    ensures references != [] && references[0] in killFails
            ==> Closed(w, references, killFails) == Closing(Release(w, {references[0]}), Some(KillFailure))
  {
    ReleaseNone(w);
    if references == [] {
      assert references[..0] == [] && Elements([]) == {};
    } else {
      assert references[..1] == [references[0]] && Elements([references[0]]) == {references[0]};
    }
  }

  /** Closing distinct live references takes out exactly those up to the first failing kill. */
  lemma {:induction false} CloseAllTakes(w: World, references: seq<u32>, killFails: set<u32>)
    requires forall i :: 0 <= i < |references| ==> references[i] in w.tunnels
    requires Distinct(references)
    ensures CloseAll(w, references, killFails) == Closed(w, references, killFails)
    decreases |references|
  {
    ClosedEnd(w, references, killFails);
    if references != [] && references[0] !in killFails {
      CloseAllTakes(Release(w, {references[0]}), references[1..], killFails);
      ClosedStep(w, references, killFails);
    }
  }

  ghost predicate Distinct(references: seq<u32>) {
    forall i, j :: 0 <= i < j < |references| ==> references[i] != references[j]
  }

  lemma ConsDistinct(r: u32, rest: seq<u32>)
    requires Distinct(rest) && r !in rest
    ensures Distinct([r] + rest)
  {
  }

  lemma {:induction false} OwnedByDistinct(order: seq<u32>, tunnels: Registry, user: string)
    requires forall q :: q in order ==> q in tunnels
    requires Distinct(order)
    ensures Distinct(OwnedBy(order, tunnels, user))
  {
    if order != [] {
      OwnedByDistinct(order[1..], tunnels, user);
      var rest := OwnedBy(order[1..], tunnels, user);
      assert order[0] !in order[1..];
      ConsDistinct(order[0], rest);
      assert [] + rest == rest;
    }
  }
}
