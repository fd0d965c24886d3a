/** The life of a router: boots, the runs of the daemon between them, and the register that spans them. */
module Lifetimes {
  import opened Wrappers
  import opened Configuration
  import opened Sequences
  import opened Text
  import opened RequestLaws
  import opened Daemons
  import opened RunHistory
  import opened Listener

  /** A boot, or a run from the state that the boot before it left, with the fate of its registrations. */
  datatype Stretch = Booting(boot: Boot) | Serving(start: State, events: seq<Event>, writings: seq<Writing>)

  ghost predicate IsRun(c: Config, x: Stretch) {
    && x.Serving? && Initial(c, x.start) && Possible(c, x.start, x.events)
    && |x.writings| == |AllRegistered(c, x.start, x.events)|
  }

  /** The registrations of a run, in turn. */
  function Requested(users: seq<User>, writings: seq<Writing>): (history: seq<Happening>)
    requires |users| == |writings|
    ensures |history| == |users|
  {
    seq(|users|, i requires 0 <= i < |users| => RebootRequest(users[i], writings[i]))
  }

  ghost function HappeningsOf(c: Config, x: Stretch): seq<Happening>
    requires x.Booting? || IsRun(c, x)
  {
    match x
    case Booting(boot) => [Starts(boot)]
    case Serving(start, events, writings) => Requested(AllRegistered(c, start, events), writings)
  }

  /** Every run follows a boot that came through, and starts with the status that the boot settled on. */
  ghost predicate IsLife(c: Config, life: seq<Stretch>)
    decreases |life|, 0
  {
    life == [] ||
    var last := |life| - 1;
    && IsLife(c, life[..last])
    && (life[last].Serving? ==>
          && IsRun(c, life[last]) && last > 0 && life[last - 1].Booting? && IsLife(c, life[..last - 1])
          && BootOutcome(c, Content(c, History(c, life[..last - 1])), life[last - 1].boot)
             == Done(life[last].start.world.status))
  }

  ghost function History(c: Config, life: seq<Stretch>): seq<Happening>
    requires IsLife(c, life)
    decreases |life|, 1
  {
    if life == [] then []
    else History(c, life[..|life| - 1]) + HappeningsOf(c, life[|life| - 1])
  }

  /** A configured user's `reboot` among the events of a run. */
  predicate RebootsAt(c: Config, events: seq<Event>, k: nat, user: User) {
    && k < |events| && events[k].Received? && Words(events[k].text) != []
    && Lower(Words(events[k].text)[0]) == "reboot"
    && UserOfPhone(c.users, events[k].sender) == Some(user)
  }

  lemma {:induction false} RegisteredByReboot(c: Config, s: State, events: seq<Event>, user: User)
    requires Possible(c, s, events) && user in AllRegistered(c, s, events)
    ensures exists k :: RebootsAt(c, events, k, user)
    decreases |events|
  {
    var last := |events| - 1;
    LastEvent(c, s, events, last);
    if user in AllRegistered(c, s, events[..last]) {
      RegisteredByReboot(c, s, events[..last], user);
      var k: nat :| RebootsAt(c, events[..last], k, user);
      assert RebootsAt(c, events, k, user);
    } else {
      RegistersByReboot(c, After(c, s, events[..last]), events[last], user);
      assert RebootsAt(c, events, last, user);
    }
  }

  lemma RegistersByReboot(c: Config, s: State, e: Event, user: User)
    requires Enabled(c, s, e) && user in Registers(c, s, e)
    ensures RebootsAt(c, [e], 0, user)
  {
    RebootRegistersSender(c, s.world, e.sender, e.text, e.answers);
  }

  /** Exactly a configured user's `reboot` is registered, and that user. */
  lemma RegistersExactly(c: Config, s: State, e: Event, user: User)
    requires Enabled(c, s, e)
    ensures Registers(c, s, e) == [user] <==> RebootsAt(c, [e], 0, user)
    ensures |Registers(c, s, e)| <= 1
  {
    if e.Received? {
      RebootRegistersSender(c, s.world, e.sender, e.text, e.answers);
    }
  }

  ghost predicate NoReboot(c: Config, events: seq<Event>, from: nat, to: nat) {
    forall j: nat, user :: from <= j < to ==> !RebootsAt(c, events, j, user)
  }

  lemma RegisteredAt(c: Config, s: State, events: seq<Event>, i: nat, user: User)
    requires Possible(c, s, events) && RebootsAt(c, events, i, user)
    ensures Possible(c, s, events[..i + 1]) && EndsIn(AllRegistered(c, s, events[..i + 1]), user)
  {
    NextEvent(c, s, events, i);
    RegistersExactly(c, After(c, s, events[..i]), events[i], user);
    Sequences.Last(AllRegistered(c, s, events[..i]), [user]);
  }

  lemma StillRegistered(c: Config, s: State, events: seq<Event>, i: nat)
    requires Possible(c, s, events) && i < |events| && NoReboot(c, events, i, i + 1)
    ensures Possible(c, s, events[..i]) && Possible(c, s, events[..i + 1])
    ensures AllRegistered(c, s, events[..i + 1]) == AllRegistered(c, s, events[..i])
  {
    NextEvent(c, s, events, i);
    NothingRegistered(c, After(c, s, events[..i]), events, i);
  }

  predicate EndsIn(users: seq<User>, user: User) {
    users != [] && users[|users| - 1] == user
  }

  /** Behind the last `reboot` of a run its user is the last registered. */
  lemma {:induction false} LastReboot(c: Config, s: State, events: seq<Event>, n: nat, k: nat, user: User)
    requires Possible(c, s, events) && k < n <= |events|
    requires RebootsAt(c, events, k, user) && NoReboot(c, events, k + 1, n)
    ensures Possible(c, s, events[..n]) && EndsIn(AllRegistered(c, s, events[..n]), user)
    decreases n
  {
    if k == n - 1 {
      RegisteredAt(c, s, events, k, user);
    } else {
      LastReboot(c, s, events, n - 1, k, user);
      StillRegistered(c, s, events, n - 1);
    }
  }

  lemma NothingRegistered(c: Config, s: State, events: seq<Event>, i: nat)
    requires i < |events| && Enabled(c, s, events[i]) && NoReboot(c, events, i, i + 1)
    ensures Registers(c, s, events[i]) == []
  {
    var users := Registers(c, s, events[i]);
    if users != [] {
      RegistersByReboot(c, s, events[i], users[0]);
      assert RebootsAt(c, events, i, users[0]);
    }
  }

  /** Such a `reboot` in some run of a life. */
  ghost predicate RebootedIn(c: Config, life: seq<Stretch>, i: nat, user: User) {
    i < |life| && life[i].Serving? && exists k :: RebootsAt(c, life[i].events, k, user)
  }

  lemma RunStemsFromReboots(c: Config, x: Stretch, j: nat)
    requires IsRun(c, x) && j < |HappeningsOf(c, x)|
    ensures HappeningsOf(c, x)[j].RebootRequest?
    ensures exists k :: RebootsAt(c, x.events, k, HappeningsOf(c, x)[j].user)
  {
    RegisteredByReboot(c, x.start, x.events, AllRegistered(c, x.start, x.events)[j]);
  }

  lemma LastStretch(c: Config, life: seq<Stretch>, last: nat)
    requires IsLife(c, life) && last + 1 == |life|
    ensures IsLife(c, life[..last]) && (life[last].Serving? ==> IsRun(c, life[last]))
    ensures History(c, life) == History(c, life[..last]) + HappeningsOf(c, life[last])
  {
  }

  lemma At(a: seq<Happening>, b: seq<Happening>, j: nat)
    requires j < |a + b|
    ensures (a + b)[j] == if j < |a| then a[j] else b[j - |a|]
  {
  }

  lemma {:induction false} RequestsStemFromReboots(c: Config, life: seq<Stretch>, j: nat)
    requires IsLife(c, life) && j < |History(c, life)| && History(c, life)[j].RebootRequest?
    ensures exists i :: RebootedIn(c, life, i, History(c, life)[j].user)
    decreases |life|
  {
    var last := |life| - 1;
    LastStretch(c, life, last);
    var earlier := History(c, life[..last]);
    At(earlier, HappeningsOf(c, life[last]), j);
    if j < |earlier| {
      RequestsStemFromReboots(c, life[..last], j);
      RebootedEarlier(c, life, last, earlier[j].user);
    } else if life[last].Serving? {
      RunStemsFromReboots(c, life[last], j - |earlier|);
      assert RebootedIn(c, life, last, History(c, life)[j].user);
    }
  }

  lemma RebootedEarlier(c: Config, life: seq<Stretch>, n: nat, user: User)
    requires n <= |life| && exists i :: RebootedIn(c, life[..n], i, user)
    ensures exists i :: RebootedIn(c, life, i, user)
  {
    var i: nat :| RebootedIn(c, life[..n], i, user);
    assert RebootedIn(c, life, i, user);
  }

  /** A request that leaves a name in the register, or empties it when the write fails. */
  predicate LeavesName(h: Happening, name: string) {
    h.RebootRequest? && ((h.writing == Written && h.user.name == name) || (h.writing == WriteFails && name == ""))
  }

  lemma {:induction false} ContentIsRequested(c: Config, history: seq<Happening>)
    requires Content(c, history).Some?
    ensures exists j :: 0 <= j < |history| && LeavesName(history[j], Content(c, history).value)
    decreases |history|
  {
    var last := |history| - 1;
    if !LeavesName(history[last], Content(c, history).value) {
      ContentIsRequested(c, history[..last]);
      var j :| 0 <= j < last && LeavesName(history[..last][j], Content(c, history[..last]).value);
      assert LeavesName(history[j], Content(c, history).value);
    }
  }

  lemma BootLooksUp(c: Config, history: seq<Happening>, b: Boot)
    ensures Notified(c, history + [Starts(b)])
         == if Completes(c, b) then LookedUp(c, Content(c, history), b.file) else None
  {
    assert (history + [Starts(b)])[..|history|] == history;
  }

  lemma LifeGoesOn(c: Config, life: seq<Stretch>, b: Boot)
    requires IsLife(c, life)
    ensures IsLife(c, life + [Booting(b)])
    ensures History(c, life + [Booting(b)]) == History(c, life) + [Starts(b)]
  {
    assert (life + [Booting(b)])[..|life|] == life;
  }

  /**
    Every notification of a boot stems from a `reboot` that a configured user sent in an earlier run:
    a user of that name, unless a failed write left the register empty and a user's name is empty.
   */
  lemma NotificationStemsFromReboot(c: Config, life: seq<Stretch>, b: Boot)
    requires IsLife(c, life)
    ensures IsLife(c, life + [Booting(b)])
    ensures var notified := Notified(c, History(c, life + [Booting(b)]));
            notified.Some? ==> exists i, user :: RebootedIn(c, life, i, user)
                                 && (user.name == notified.value.name || notified.value.name == "")
  {
    LifeGoesOn(c, life, b);
    var history := History(c, life);
    BootLooksUp(c, history, b);
    if Notified(c, history + [Starts(b)]).Some? {
      ContentIsRequested(c, history);
      var j :| 0 <= j < |history| && LeavesName(history[j], Content(c, history).value);
      RequestsStemFromReboots(c, life, j);
      var i: nat :| RebootedIn(c, life, i, history[j].user);
    }
  }

  lemma {:induction false} PendingBehind(c: Config, history: seq<Happening>, users: seq<User>, writings: seq<Writing>)
    requires users != [] && |users| == |writings|
    ensures Pending(c, history + Requested(users, writings)) == Some(users[|users| - 1])
  {
    var all := history + Requested(users, writings);
    assert all[|all| - 1] == RebootRequest(users[|users| - 1], writings[|users| - 1]);
  }

  /** The users that the last stretch of a life registers, if it is a run. */
  ghost function LastRegistered(c: Config, life: seq<Stretch>): seq<User>
    requires IsLife(c, life)
  {
    if life == [] || life[|life| - 1].Booting? then []
    else AllRegistered(c, life[|life| - 1].start, life[|life| - 1].events)
  }

  lemma LastIsPending(c: Config, life: seq<Stretch>, user: User)
    requires IsLife(c, life) && EndsIn(LastRegistered(c, life), user)
    ensures Pending(c, History(c, life)) == Some(user)
  {
    var last := |life| - 1;
    LastStretch(c, life, last);
    PendingBehind(c, History(c, life[..last]), LastRegistered(c, life), life[last].writings);
  }

  /** The life ends in a run whose last `reboot` is its `k`-th event, by a user. */
  ghost predicate EndsInReboot(c: Config, life: seq<Stretch>, k: nat, user: User) {
    && life != [] && life[|life| - 1].Serving?
    && RebootsAt(c, life[|life| - 1].events, k, user)
    && NoReboot(c, life[|life| - 1].events, k + 1, |life[|life| - 1].events|)
  }

  lemma RebootIsLast(c: Config, life: seq<Stretch>, k: nat, user: User)
    requires IsLife(c, life) && EndsInReboot(c, life, k, user)
    ensures EndsIn(LastRegistered(c, life), user)
  {
    var x := life[|life| - 1];
    LastStretch(c, life, |life| - 1);
    LastReboot(c, x.start, x.events, |x.events|, k, user);
    Whole(x.events);
  }

  lemma RebootIsPending(c: Config, life: seq<Stretch>, k: nat, user: User)
    requires IsLife(c, life) && EndsInReboot(c, life, k, user)
    ensures Pending(c, History(c, life)) == Some(user)
  {
    RebootIsLast(c, life, k, user);
    LastIsPending(c, life, user);
  }

  /**
    The last user to send a `reboot` in a run is notified by the boot after it, if that completes SMS
    setup, names are distinct and all file operations succeed.
   */
  lemma RebootIsNotified(c: Config, life: seq<Stretch>, b: Boot, k: nat, user: User)
    requires IsLife(c, life) && EndsInReboot(c, life, k, user)
    requires DistinctUsers(c) && Completes(c, b) && b.file == Reading(true, true, true)
    requires forall h :: h in History(c, life) ==> Succeeds(c, h)
    ensures IsLife(c, life + [Booting(b)])
    ensures Notified(c, History(c, life + [Booting(b)])) == Some(user)
  {
    RebootIsPending(c, life, k, user);
    LifeGoesOn(c, life, b);
    BootNotifiesPending(c, History(c, life), b);
  }
}
