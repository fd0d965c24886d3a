/** The daemon's mutable context, and the request and clean-up code that changes it in place. */
module Contexts {
  import opened Wrappers
  import opened Configuration
  import opened Status
  import opened Text
  import opened TunnelReader
  import opened Tunnels
  import opened Requests
  import opened Expiry
  import opened PhoneNumbers

  lemma ChildrenOfSome(tunnels: Registry, references: seq<u32>)
    ensures Children(tunnels, Elements(references)) <= Children(tunnels, tunnels.Keys)
  {
  }

  class Context {
    const configuration: Config
    var status: Status
    var tunnels: Registry

    /** The ssh children of the process: how many were ever spawned, and which are released. */
    var spawned: nat
    var released: set<nat>

    constructor (configuration: Config, status: Status)
      ensures this.configuration == configuration
      ensures Model() == World(status, map[], 0, {})
    {
      this.configuration, this.status := configuration, status;
      tunnels, spawned, released := map[], 0, {};
    }

    function Model(): World
      reads this
    {
      World(status, tunnels, spawned, released)
    }

    method UpdateStatus(status: Status)
      modifies this`status
      ensures this.status == status
    {
      this.status := status;
    }

    method SpawnChild() returns (child: nat)
      modifies this`spawned
      ensures child == old(spawned) && spawned == old(spawned) + 1
    {
      child := spawned;
      spawned := spawned + 1;
    }

    method ReleaseChild(child: nat)
      modifies this`released
      ensures released == old(released) + {child}
    {
      released := released + {child};
    }

    /** Taking an entry out of the map and dropping it. */
    method RemoveTunnel(r: u32)
      requires r in tunnels
      modifies this`tunnels, this`released
      ensures Model() == Release(old(Model()), {r})
    {
      var entry := tunnels[r];
      tunnels := tunnels - {r};
      ReleaseChild(entry.process);
      assert Children(old(tunnels), {r}) == {entry.process};
    }

    /** `HashMap::insert`, which hands back a displaced entry to be dropped. */
    method InsertTunnel(r: u32, t: Tunnel)
      modifies this`tunnels, this`released
      ensures tunnels == old(tunnels)[r := t]
      ensures released == old(released) + if r in old(tunnels) then {old(tunnels)[r].process} else {}
    {
      if r in tunnels {
        ReleaseChild(tunnels[r].process);
      }
      tunnels := tunnels[r := t];
    }

    /** Dropping the context, and with it every tunnel. */
    method DropTunnels()
      modifies this`tunnels, this`released
      ensures Model() == Release(old(Model()), old(tunnels).Keys)
    {
      released := released + Children(tunnels, tunnels.Keys);
      tunnels := tunnels - tunnels.Keys;
    }

    method OpenTunnel(user: User, arguments: seq<string>, a: Answers)
      returns (outcome: Outcome<Ack, Error>, email: Option<Email>)
      requires IsOrder(a.order, tunnels)
      modifies this`tunnels, this`spawned, this`released
      ensures Handled(Model(), outcome, email, None) == Open(configuration, old(Model()), user, arguments, a)
    {
      email := None;
      var check := CheckOpen(configuration, Model(), user, arguments, a.order);
      if check.Err? {
        return Failed(check.error), None;
      }
      var application := configuration.applications[check.value];
      if a.spawnFails {
        return Failed(IoFailure), None;
      }
      var child := SpawnChild();
      var url := SetupReader(a.output);
      if url.Err? {
        ReleaseChild(child);
        return if a.stderrPanics then Panicked else Failed(SetupFailure(url.error)), None;
      }
      email := Some(Email(user.email, user.name, application.name, url.value, application.endPoint));
      if !a.emailSent {
        ReleaseChild(child);
        return Failed(EmailFailure), email;
      }
      var reference := NewReference(tunnels);
      InsertTunnel(reference, Tunnel(user.name, application.name, child, a.created));
      outcome := Done(TunnelOpened(reference));
    }

    /** Takes the tunnels of the references out one by one, up to an unknown one or a failing kill. */
    method CloseTunnels(references: seq<u32>, killFails: set<u32>) returns (error: Option<Error>)
      modifies this`tunnels, this`released
      ensures Closing(Model(), error) == CloseAll(old(Model()), references, killFails)
    {
      var n := 0;
      while n < |references|
        invariant 0 <= n <= |references|
        invariant spawned == old(spawned) && status == old(status)
        invariant CloseAll(Model(), references[n..], killFails) == CloseAll(old(Model()), references, killFails)
      {
        var r := references[n];
        assert references[n..][1..] == references[n + 1..];
        if r !in tunnels {
          return Some(InvalidRequest(UnknownReference(r)));
        }
        RemoveTunnel(r);
        if r in killFails {
          return Some(KillFailure);
        }
        n := n + 1;
      }
      return None;
    }

    method CloseCommand(user: User, arguments: seq<string>, a: Answers) returns (outcome: Outcome<Ack, Error>)
      requires IsOrder(a.order, tunnels)
      modifies this`tunnels, this`released
      ensures Handled(Model(), outcome, None, None) == Close(old(Model()), user, arguments, a)
    {
      var references: seq<u32>;
      if arguments != [] {
        var reference := ParseU32(arguments[0]);
        if reference.None? {
          return Failed(InvalidRequest(InvalidReference(arguments[0])));
        }
        references := [reference.value];
      } else {
        references := OwnedBy(a.order, tunnels, user.name);
        if references == [] {
          return Failed(InvalidRequest(NoOpenTunnel));
        }
      }
      var error := CloseTunnels(references, a.killFails);
      if error.Some? {
        return Failed(error.value);
      }
      outcome := Done(TunnelsClosed(|references| > 1));
    }

    method HandleRequest(sender: string, text: string, a: Answers)
      returns (outcome: Outcome<Ack, Error>, email: Option<Email>, register: Option<User>)
      requires IsOrder(a.order, tunnels)
      modifies this
      ensures Handled(Model(), outcome, email, register)
           == Handle(configuration, old(Model()), sender, text, a)
    {
      email, register := None, None;
      var user := UserOfPhone(configuration.users, sender);
      if user.None? {
        return Failed(SenderNotAllowed(sender)), None, None;
      }
      var words := Words(text);
      if words == [] {
        return Failed(InvalidRequest(NoCommand)), None, None;
      }
      var command := Lower(words[0]);
      if command == "open" {
        outcome, email := OpenTunnel(user.value, words[1..], a);
      } else if command == "close" {
        outcome := CloseCommand(user.value, words[1..], a);
      } else if command == "status" {
        var refreshed := ReadStatus(configuration, a.probes);
        if refreshed.Err? {
          return Failed(StatusFailure(refreshed.error)), None, None;
        }
        UpdateStatus(refreshed.value);
        outcome := Done(StatusReport(refreshed.value));
      } else if command == "reboot" {
        register := user;
        outcome := Done(Rebooting);
      } else if command == "shutdown" {
        outcome := Done(ShuttingDown);
      } else {
        outcome := Failed(InvalidRequest(UnknownCommand(words[0])));
      }
    }

    /**
      The first pass kills, notifies and collects the expired tunnels, the second removes them. What
      remains does not depend on which kills fail, nor on the order of the traversal. A notice that
      panics ends it at once: some children are released, and no tunnel is removed.
     */
    method CleanUpExpiredTunnels(now: nat, order: seq<u32>, killFails: set<u32>, portFails: set<u32>)
      returns (notices: seq<Notice>, panicked: bool)
      requires IsOrder(order, tunnels)
      requires forall r :: r in tunnels ==> tunnels[r].created <= now
      modifies this`tunnels, this`released
      ensures panicked <==> CleanUpPanics(configuration, old(tunnels), now, portFails)
      ensures !panicked ==> Model() == Expire(configuration, old(Model()), now)
      ensures panicked ==> tunnels == old(tunnels)
                           && old(released) <= released <= old(released) + Children(tunnels, tunnels.Keys)
      ensures forall i :: 0 <= i < |order| ==> order[i] in old(tunnels)
      ensures notices == CleanUpNotices(configuration, old(tunnels), order, now, portFails)
    {
      ExpiredInOrder(configuration, tunnels, order, now);
      var idToRemove: seq<u32>;
      idToRemove, notices, panicked := KillExpired(now, order, killFails, portFails);
      if panicked {
        ChildrenOfSome(tunnels, idToRemove);
        return;
      }
      RemoveAll(idToRemove, old(Model()));
    }

    /** The first pass, which leaves the map alone. */
    method KillExpired(now: nat, order: seq<u32>, killFails: set<u32>, portFails: set<u32>)
      returns (idToRemove: seq<u32>, notices: seq<Notice>, panicked: bool)
      requires IsOrder(order, tunnels) && forall i :: 0 <= i < |order| ==> order[i] in tunnels
      requires forall r :: r in tunnels ==> tunnels[r].created <= now
      modifies this`released
      ensures panicked <==> CleanUpPanics(configuration, tunnels, now, portFails)
      ensures !panicked ==> idToRemove == ExpiredIn(configuration, tunnels, order, |order|, now)
      ensures notices == CleanUpNotices(configuration, tunnels, order, now, portFails)
      ensures SomeReleased(tunnels, old(released), released, idToRemove)
    {
      idToRemove, notices, panicked := [], [], false;
      var i := 0;
      while i < |order|
        invariant IsToldOf(configuration, tunnels, order, i, now, portFails, idToRemove, notices)
        invariant SomeReleased(tunnels, old(released), released, idToRemove)
      {
        var r := order[i];
        NextIsTold(configuration, tunnels, order, i, now, portFails, idToRemove, notices);
        if now - tunnels[r].created > configuration.tunnelTimeoutSec * NANOS {
          Kill(r, killFails, old(released), idToRemove);
          var notice: seq<Notice>;
          notice, panicked := Notify(r, portFails);
          if panicked {
            PanicsAt(configuration, tunnels, order, i, now, portFails);
            idToRemove := idToRemove + [r];
            return;
          }
          notices := notices + notice;
          idToRemove := idToRemove + [r];
        }
        i := i + 1;
      }
      NothingPanics(configuration, tunnels, order, now, portFails);
    }

    /** The attempt to kill an expired tunnel's child, whose failure is only logged. */
    method Kill(r: u32, killFails: set<u32>, ghost before: set<nat>, ghost earlier: seq<u32>)
      requires r in tunnels && SomeReleased(tunnels, before, released, earlier)
      modifies this`released
      ensures SomeReleased(tunnels, before, released, earlier + [r])
    {
      SomeReleasedNext(tunnels, before, released, earlier, r);
      if r !in killFails {
        ReleaseChild(tunnels[r].process);
      }
    }

    /** The attempt to tell the user of an expired tunnel, whose failure is only logged. */
    method Notify(r: u32, portFails: set<u32>) returns (notices: seq<Notice>, panicked: bool)
      requires r in tunnels
      ensures panicked <==> NoticePanics(configuration, tunnels, r, portFails)
      ensures !panicked ==> notices == NoticeOf(configuration, tunnels, r)
    {
      notices, panicked := [], false;
      var user := UserOfName(configuration.users, tunnels[r].user);
      if user.Some? {
        if r !in portFails {
          var number := EncodePhoneNumber(user.value.phone);
          if number.Panicked? {
            return [], true;
          }
        }
        notices := [Notice(user.value.phone, r)];
      }
    }

    /** The second pass, from a world in which some of the children are released already. */
    method RemoveAll(references: seq<u32>, ghost before: World)
      requires before == Model().(released := before.released)
      requires SomeReleased(tunnels, before.released, released, references)
      modifies this`tunnels, this`released
      ensures Model() == Release(before, Elements(references))
    {
      var j := 0;
      while j < |references|
        invariant 0 <= j <= |references|
        invariant status == before.status && spawned == before.spawned
        invariant tunnels == before.tunnels - Elements(references[..j])
        invariant before.released + Children(before.tunnels, Elements(references[..j])) <= released
        invariant released <= before.released + Children(before.tunnels, Elements(references))
      {
        var r := references[j];
        assert Elements(references[..j + 1]) == Elements(references[..j]) + {r};
        if r in tunnels {
          RemoveTunnel(r);
        }
        j := j + 1;
      }
      assert references[..j] == references;
    }
  }
}
