/**
  Panics while an SMS is sent: never for a reply, and for an expiry notice exactly in configurations in
  which a user's name is first found beside a phone number that cannot be encoded.
 */
module Undeliverable {
  import opened Wrappers
  import opened Arrivals
  import opened Configuration
  import opened Expiry
  import opened PhoneNumbers
  import opened Pdu
  import opened Text
  import opened Tunnels
  import opened Daemons
  import opened RunHistory
  import opened Displacement

  /** Whoever can be received from can be replied to: the number is encoded without a panic. */
  lemma SenderEncodes(phone: string)
    requires IsSender(phone)
    ensures EncodePhone(phone).Done?
  {
    var digits := Without(phone, '+');
    assert phone == "+" + phone[1..];
    WithoutShrinks(phone[1..], '+');
    BytesAtLeast(phone[1..]);
    assert digits == Without(phone[1..], '+');
  }

  /** The number of the sender of every message that is handled in a run can be encoded. */
  lemma RepliesNeverPanic(c: Config, s: State, e: Event)
    requires Enabled(c, s, e) && e.Received?
    ensures forall o :: o in Sends(c, s, e) ==> EncodePhone(o.to).Done?
  {
    SenderEncodes(e.sender);
  }

  /** A clean-up of some run panics. */
  ghost predicate CanPanic(c: Config) {
    exists s, events, e :: Initial(c, s) && Possible(c, s, events) && TickPanics(c, After(c, s, events), e)
  }

  ghost predicate TickPanics(c: Config, s: State, e: Event) {
    Enabled(c, s, e) && e.Tick? && !Step(c, s, e).running
  }

  /** The first user of a name has a phone number that cannot be encoded. */
  predicate IsUnreachable(c: Config, name: string) {
    var user := UserOfName(c.users, name);
    user.Some? && EncodePhone(user.value.phone).Panicked?
  }

  /** Somebody can open a tunnel under a name whose notices panic. */
  ghost predicate CanOpenUnreachable(c: Config) {
    exists phone, application :: Openable(c, phone, application)
                                 && IsUnreachable(c, UserOfPhone(c.users, phone).value.name)
  }

  lemma UnreachableTunnel(c: Config, t: Tunnel)
    requires IsOpenable(c, t) && CannotNotify(c, t)
    ensures CanOpenUnreachable(c)
  {
    var phone :| Openable(c, phone, t.application) && UserOfPhone(c.users, phone).value.name == t.user;
    assert IsUnreachable(c, UserOfPhone(c.users, phone).value.name);
  }

  lemma PanicNeeds(c: Config, s: State, events: seq<Event>, e: Event)
    requires Initial(c, s) && Possible(c, s, events) && TickPanics(c, After(c, s, events), e)
    ensures c.tunnelMax != Some(0) && CanOpenUnreachable(c)
  {
    var tunnels := After(c, s, events).world.tunnels;
    var r :| r in tunnels && IsExpired(c, tunnels[r], e.current) && NoticePanics(c, tunnels, r, e.portFails);
    TunnelNeeds(c, s, events, r);
    UnreachableTunnel(c, tunnels[r]);
  }

  /** A tick long enough after time zero for a tunnel of that time to have expired. */
  function LateTick(c: Config): Event {
    var late := (c.refreshPeriodSec + c.tunnelTimeoutSec + 1) * NANOS;
    Tick(late, late, late, [0], {}, {})
  }

  lemma LateTickPanics(c: Config, w: World)
    requires IsOrder([0], w.tunnels) && w.tunnels[0].created == 0 && CannotNotify(c, w.tunnels[0])
    ensures TickPanics(c, At(w), LateTick(c))
  {
    assert IsExpired(c, w.tunnels[0], LateTick(c).current);
    assert NoticePanics(c, w.tunnels, 0, {});
  }

  lemma UnreachableUserPanics(c: Config, phone: string, application: string)
    requires Openable(c, phone, application) && c.tunnelMax != Some(0)
    requires IsUnreachable(c, UserOfPhone(c.users, phone).value.name)
    ensures CanPanic(c)
  {
    var w := Start(c, application, application);
    var events := FirstOpening(c, w, phone, application);
    OpenedHasTunnel(c, w, phone, application);
    LateTickPanics(c, Opened(c, w, phone, application));
  }

  /**
    Some run ends in a panic over an expiry notice if and only if a tunnel can be opened under a name
    whose first user's number cannot be encoded.
   */
  lemma NoticePanicIsPossible(c: Config)
    ensures CanPanic(c) <==> c.tunnelMax != Some(0) && CanOpenUnreachable(c)
  {
    if CanPanic(c) {
      var s, events, e :| Initial(c, s) && Possible(c, s, events) && TickPanics(c, After(c, s, events), e);
      PanicNeeds(c, s, events, e);
    }
    if c.tunnelMax != Some(0) && CanOpenUnreachable(c) {
      var phone, application :| Openable(c, phone, application)
                                && IsUnreachable(c, UserOfPhone(c.users, phone).value.name);
      UnreachableUserPanics(c, phone, application);
    }
  }

  /** Where user names are distinct no notice ever panics: a tunnel's user is one who has sent. */
  lemma DistinctNamesNeverPanic(c: Config)
    requires DistinctUsers(c)
    ensures !CanPanic(c)
  {
    NoticePanicIsPossible(c);
    forall phone, application | Openable(c, phone, application)
      ensures !IsUnreachable(c, UserOfPhone(c.users, phone).value.name)
    {
      var user := UserOfPhone(c.users, phone).value;
      assert UserOfName(c.users, user.name) == Some(user);
      SenderEncodes(phone);
    }
  }
}
