/**
  The daemon's loop: it waits for an SMS for the refresh period, and either handles what it received
  or, when the wait times out, runs the periodic routines.
 */
module Daemons {
  import opened Wrappers
  import opened Arrivals
  import opened Configuration
  import opened Status
  import opened Text
  import opened Tunnels
  import opened Requests
  import opened Expiry

  /** Times are in nanoseconds; `checked` is the time that the last clean-up took as current. */
  datatype State = State(world: World, now: nat, checked: nat, running: bool)

  /**
    How one wait ends and what comes of it. `at` is when the wait ends and `done` when the loop is
    back at waiting; the wait's timer has been running since the state's `now`. What is received
    is what one read of the modem can give. `portFails` are the references about which no notice gets
    as far as encoding a phone number, as the serial port cannot be opened.
   */
  datatype Event =
    | Tick(at: nat, current: nat, done: nat, order: seq<u32>, killFails: set<u32>, portFails: set<u32>)
    | Received(at: nat, done: nat, sender: string, text: string, answers: Answers)
    | ReadingFailed(at: nat)
    | ReadingPanicked(at: nat)

  datatype Body = Expiry(reference: u32) | Answer(outcome: Outcome<Ack, Error>)

  datatype Outgoing = Outgoing(to: string, body: Body)

  ghost predicate Enabled(c: Config, s: State, e: Event) {
    && s.running && s.now <= e.at
    && match e
       case Tick(at, current, done, order, _, _) =>
         s.now + c.refreshPeriodSec * NANOS <= at <= current <= done && IsOrder(order, s.world.tunnels)
       case Received(at, done, sender, text, answers) =>
         Arrives(sender, text) && at <= answers.created <= done && IsOrder(answers.order, s.world.tunnels)
       case ReadingFailed(_) => true
       case ReadingPanicked(_) => true
  }

  /** A panic unwinds the task, which drops the context and every child with it. */
  function Halted(s: State): State {
    s.(world := Release(s.world, s.world.tunnels.Keys), running := false)
  }

  function Step(c: Config, s: State, e: Event): State
    requires Enabled(c, s, e)
  {
    match e
    case Tick(_, current, done, _, _, portFails) =>
      if CleanUpPanics(c, s.world.tunnels, current, portFails) then Halted(s.(now := done))
      else State(Expire(c, s.world, current), done, current, true)
    case Received(_, done, sender, text, answers) =>
      var h := Handle(c, s.world, sender, text, answers);
      var after := State(h.world, done, s.checked, true);
      if h.outcome.Panicked? then Halted(after) else after
    case ReadingFailed(at) => s.(now := at)
    case ReadingPanicked(at) => Halted(s.(now := at))
  }

  /** The answer that the loop sends back: silence for a sender who is not allowed. */
  function Respond(sender: string, outcome: Outcome<Ack, Error>): seq<Outgoing> {
    if outcome.Panicked? || (outcome.Failed? && outcome.error.SenderNotAllowed?) then []
    else [Outgoing(sender, Answer(outcome))]
  }

  function Notifications(notices: seq<Notice>): (sends: seq<Outgoing>)
    ensures |sends| == |notices|
  {
    seq(|notices|, i requires 0 <= i < |notices| => Outgoing(notices[i].to, Expiry(notices[i].reference)))
  }

  /** The SMSs that a step attempts to send. */
  ghost function Sends(c: Config, s: State, e: Event): seq<Outgoing>
    requires Enabled(c, s, e)
  {
    match e
    case Tick(_, current, _, order, _, portFails) =>
      ExpiredInOrder(c, s.world.tunnels, order, current);
      Notifications(CleanUpNotices(c, s.world.tunnels, order, current, portFails))
    case Received(_, _, sender, text, answers) =>
      Respond(sender, Handle(c, s.world, sender, text, answers).outcome)
    case ReadingFailed(_) => []
    case ReadingPanicked(_) => []
  }

  /** The user whom a step registers for the restart notification, if any. */
  ghost function Registers(c: Config, s: State, e: Event): seq<User>
    requires Enabled(c, s, e)
  {
    if e.Received? then Listed(Handle(c, s.world, e.sender, e.text, e.answers).register) else []
  }

  function Listed(user: Option<User>): seq<User> {
    if user.Some? then [user.value] else []
  }

  // ---------- Runs ----------

  /** The daemon as `init` leaves it: a probed status and no tunnels. */
  ghost predicate Initial(c: Config, s: State) {
    && IsProbed(c, s.world.status)
    && s.world == World(s.world.status, map[], 0, {})
    && s.checked <= s.now && s.running
  }

  ghost predicate Possible(c: Config, s: State, events: seq<Event>)
    decreases |events|, 0
  {
    events == [] ||
    var last := |events| - 1;
    Possible(c, s, events[..last]) && Enabled(c, After(c, s, events[..last]), events[last])
  }

  ghost function After(c: Config, s: State, events: seq<Event>): State
    requires Possible(c, s, events)
    decreases |events|, 1
  {
    if events == [] then s
    else
      var last := |events| - 1;
      Step(c, After(c, s, events[..last]), events[last])
  }

  ghost function AllSends(c: Config, s: State, events: seq<Event>): seq<Outgoing>
    requires Possible(c, s, events)
    decreases |events|
  {
    if events == [] then []
    else
      var last := |events| - 1;
      AllSends(c, s, events[..last]) + Sends(c, After(c, s, events[..last]), events[last])
  }

  ghost function AllRegistered(c: Config, s: State, events: seq<Event>): seq<User>
    requires Possible(c, s, events)
    decreases |events|
  {
    if events == [] then []
    else
      var last := |events| - 1;
      AllRegistered(c, s, events[..last]) + Registers(c, After(c, s, events[..last]), events[last])
  }
}
