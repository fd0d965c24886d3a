/** The register of who is told about a restart: a file that survives boots. */
module Listener {
  import opened Wrappers
  import opened Configuration
  import opened Status
  import opened Init
  import opened PhoneNumbers
  import opened Text

  /** What the file system makes of a registration: open with truncation, then write. */
  datatype Writing = OpenFails | WriteFails | Written

  /** What it makes of a lookup. */
  datatype Reading = Reading(opens: bool, readable: bool, removes: bool)

  /** What one boot meets: the status requests, the PIN, the SMS setup, the register file and the serial port. */
  datatype Boot = Boot(answers: nat -> Probes, pinAccepted: bool, smsReady: bool, file: Reading, portOpens: bool)

  /** The content after a registration; a failing write has already truncated the file. */
  function Registered(content: Option<string>, name: string, writing: Writing): Option<string> {
    match writing
    case OpenFails => content
    case WriteFails => Some("")
    case Written => Some(name)
  }

  function LookedUp(c: Config, content: Option<string>, r: Reading): Option<User> {
    match content
    case None => None
    case Some(name) => if r.opens && r.readable then UserOfName(c.users, name) else None
  }

  function Remaining(content: Option<string>, r: Reading): Option<string> {
    if content.Some? && !r.removes then content else None
  }

  class RegisterFile {
    var content: Option<string>

    constructor ()
      ensures content == None
    {
      content := None;
    }

    method RegisterInitListener(user: User, writing: Writing)
      modifies this
      ensures content == Registered(old(content), user.name, writing)
    {
      if writing == OpenFails {
        return;
      }
      content := Some("");
      if writing == Written {
        content := Some(user.name);
      }
    }

    method LookupInitListener(c: Config, r: Reading) returns (user: Option<User>)
      modifies this
      ensures user == LookedUp(c, old(content), r)
      ensures content == Remaining(old(content), r)
    {
      user := None;
      if content.None? {
        return;
      }
      if r.opens && r.readable {
        user := UserOfName(c.users, content.value);
      }
      if r.removes {
        content := None;
      }
    }

    /** `init`, as far as the register is concerned: to whom a notification is sent, if to anybody. */
    method Start(c: Config, b: Boot) returns (outcome: Outcome<Status, InitError>, notified: Option<User>)
      modifies this
      ensures outcome == BootOutcome(c, old(content), b)
      ensures notified == (if Completes(c, b) then LookedUp(c, old(content), b.file) else None)
      ensures content == (if Completes(c, b) then Remaining(old(content), b.file) else old(content))
    {
      var settled := SettleStatus(c, b.answers, b.pinAccepted);
      notified := None;
      if settled.result.Err? {
        return Failed(settled.result.error), None;
      }
      var status := settled.result.value;
      if status.device != SimLocked && status.device != LteNotConnected {
        if !b.smsReady {
          return Failed(SmsInitError), None;
        }
        notified := LookupInitListener(c, b.file);
        if notified.Some? && b.portOpens {
          var number := EncodePhoneNumber(notified.value.phone);
          if number.Panicked? {
            return Panicked, notified;
          }
        }
      }
      outcome := Done(status);
    }
  }

  /** The status that a boot starts the daemon with, or why it does not start. */
  function BootStatus(c: Config, b: Boot): Result<Status, InitError> {
    var result := SettleAll(c, b.answers, b.pinAccepted).result;
    if result.Ok? && result.value.device != SimLocked && result.value.device != LteNotConnected && !b.smsReady
    then Err(SmsInitError) else result
  }

  /** The boot gets through SMS setup, after which it looks the register up. */
  predicate Completes(c: Config, b: Boot) {
    var status := BootStatus(c, b);
    status.Ok? && status.value.device != SimLocked && status.value.device != LteNotConnected
  }

  /** How a boot ends, with some content of the register: the notification's number may not be encodable. */
  function BootOutcome(c: Config, content: Option<string>, b: Boot): Outcome<Status, InitError> {
    var user := if Completes(c, b) then LookedUp(c, content, b.file) else None;
    if user.Some? && b.portOpens && EncodePhone(user.value.phone).Panicked? then Panicked
    else match BootStatus(c, b)
      case Ok(status) => Done(status)
      case Err(e) => Failed(e)
  }

  // ---------- Histories ----------

  /** What happens to a router: reboot requests of users, and boots. */
  datatype Happening = RebootRequest(user: User, writing: Writing) | Starts(boot: Boot)

  /** The register's content after a history that starts without a file. */
  function Content(c: Config, history: seq<Happening>): Option<string> {
    if history == [] then None
    else
      var earlier := Content(c, history[..|history| - 1]);
      match history[|history| - 1]
      case RebootRequest(user, writing) => Registered(earlier, user.name, writing)
      case Starts(b) => if Completes(c, b) then Remaining(earlier, b.file) else earlier
  }

  /** To whom the last happening of a history sends a notification. */
  function Notified(c: Config, history: seq<Happening>): Option<User> {
    if history == [] then None
    else
      match history[|history| - 1]
      case RebootRequest(_, _) => None
      case Starts(b) =>
        if Completes(c, b) then LookedUp(c, Content(c, history[..|history| - 1]), b.file) else None
  }

  /** How a boot ends by the status it settles on, and when the register is looked up, whatever it holds. */
  lemma BootIsExact(c: Config, content: Option<string>, b: Boot)
    ensures var settled := SettleAll(c, b.answers, b.pinAccepted).result;
            var hasNetwork := settled.Ok? && settled.value.device in {Ready, InternetUnreachable};
            && (Completes(c, b) <==> hasNetwork && b.smsReady)
            && (BootOutcome(c, content, b).Done? ==>
                  settled == Ok(BootOutcome(c, content, b).value) && (hasNetwork ==> b.smsReady))
            && (BootOutcome(c, content, b).Failed? <==> settled.Err? || (hasNetwork && !b.smsReady))
            && (settled.Err? ==> BootOutcome(c, content, b) == Failed(settled.error))
            && (hasNetwork && !b.smsReady ==> BootOutcome(c, content, b) == Failed(SmsInitError))
  {
  }

  /** A boot panics exactly over a registered user whose number is odd and long, with an open port. */
  lemma BootPanics(c: Config, content: Option<string>, b: Boot)
    ensures BootOutcome(c, content, b).Panicked? <==>
            && Completes(c, b) && content.Some? && b.file.opens && b.file.readable && b.portOpens
            && var user := UserOfName(c.users, content.value);
               user.Some? && |Without(user.value.phone, '+')| > 12 && |Without(user.value.phone, '+')| % 2 == 1
  {
    if content.Some? && UserOfName(c.users, content.value).Some? {
      EncodingPanics(UserOfName(c.users, content.value).value.phone);
    }
  }

  /** What a boot makes of the register: it notifies whom a readable file names, and removes it in any case. */
  lemma BootUsesRegister(c: Config, history: seq<Happening>, b: Boot)
    ensures var content, after := Content(c, history), history + [Starts(b)];
            && Notified(c, after)
               == (if Completes(c, b) && content.Some? && b.file.opens && b.file.readable
                   then UserOfName(c.users, content.value) else None)
            && Content(c, after) == (if Completes(c, b) && b.file.removes then None else content)
  {
    assert (history + [Starts(b)])[..|history|] == history;
  }

  /** What a registration makes of it: the name, or nothing behind the truncation, or no change at all. */
  lemma RegistrationFillsRegister(c: Config, history: seq<Happening>, user: User)
    ensures Content(c, history + [RebootRequest(user, Written)]) == Some(user.name)
    ensures Content(c, history + [RebootRequest(user, WriteFails)]) == Some("")
    ensures Content(c, history + [RebootRequest(user, OpenFails)]) == Content(c, history)
  {
    assert (history + [RebootRequest(user, Written)])[..|history|] == history;
    assert (history + [RebootRequest(user, WriteFails)])[..|history|] == history;
    assert (history + [RebootRequest(user, OpenFails)])[..|history|] == history;
  }

  /** The user registered last, unless a boot has completed SMS setup since. */
  function Pending(c: Config, history: seq<Happening>): Option<User> {
    if history == [] then None
    else
      match history[|history| - 1]
      case RebootRequest(user, _) => Some(user)
      case Starts(b) => if Completes(c, b) then None else Pending(c, history[..|history| - 1])
  }

  /** A configured user's registration, and file operations, succeed. */
  predicate Succeeds(c: Config, h: Happening) {
    match h
    case RebootRequest(user, writing) => user in c.users && writing == Written
    case Starts(b) => b.file == Reading(true, true, true)
  }

  lemma {:induction false} FileHoldsPending(c: Config, history: seq<Happening>)
    requires forall i :: 0 <= i < |history| ==> Succeeds(c, history[i])
    ensures Content(c, history) == match Pending(c, history) case Some(u) => Some(u.name) case None => None
    ensures Pending(c, history).Some? ==> Pending(c, history).value in c.users
    decreases |history|
  {
    if history != [] {
      FileHoldsPending(c, history[..|history| - 1]);
      assert Succeeds(c, history[|history| - 1]);
    }
  }

  /**
    With distinct user names and succeeding file operations, a boot notifies the user registered last,
    if it completes SMS setup and no boot has since that registration, and nobody otherwise. A boot
    that ends locked, not connected or in an error leaves the registration for a later one.
   */
  lemma BootNotifiesPending(c: Config, history: seq<Happening>, b: Boot)
    requires DistinctUsers(c) && b.file == Reading(true, true, true)
    requires forall i :: 0 <= i < |history| ==> Succeeds(c, history[i])
    ensures Notified(c, history + [Starts(b)]) == if Completes(c, b) then Pending(c, history) else None
    ensures Pending(c, history + [Starts(b)]) == if Completes(c, b) then None else Pending(c, history)
  {
    FileHoldsPending(c, history);
    assert (history + [Starts(b)])[..|history|] == history;
  }

  function Count(c: Config, history: seq<Happening>): nat {
    if history == [] then 0
    else Count(c, history[..|history| - 1]) + if Notified(c, history).Some? then 1 else 0
  }

  /** Registrations, and lookups after which the file could not be removed. */
  function Chances(c: Config, history: seq<Happening>): nat {
    if history == [] then 0
    else
      Chances(c, history[..|history| - 1])
      + match history[|history| - 1]
        case RebootRequest(_, _) => 1
        case Starts(b) => if Completes(c, b) && !b.file.removes then 1 else 0
  }

  /**
    In every history, whatever fails: no more notifications than registrations and failed removals,
    and one less while a registration is waiting in the file.
   */
  lemma {:induction false} NotificationsAreEarned(c: Config, history: seq<Happening>)
    ensures Count(c, history) + (if Content(c, history).Some? then 1 else 0) <= Chances(c, history)
    decreases |history|
  {
    if history != [] {
      NotificationsAreEarned(c, history[..|history| - 1]);
    }
  }

  /** A failed removal is what it takes: one registration is then notified at every completed boot. */
  lemma FailedRemovalRepeats(c: Config, user: User, b: Boot)
    requires user in c.users && DistinctUsers(c)
    requires Completes(c, b) && b.file == Reading(true, true, false)
    ensures Notified(c, [RebootRequest(user, Written), Starts(b)]) == Some(user)
    ensures Notified(c, [RebootRequest(user, Written), Starts(b), Starts(b)]) == Some(user)
  {
    var first := [RebootRequest(user, Written), Starts(b)];
    var second := first + [Starts(b)];
    assert second == [RebootRequest(user, Written), Starts(b), Starts(b)];
    assert second[..2] == first && first[..1] == [RebootRequest(user, Written)];
    assert Content(c, [RebootRequest(user, Written)]) == Some(user.name);
  }
}
