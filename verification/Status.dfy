/** `get_status`: the status of the device, its services and the configured applications. */
module Status {
  import opened Wrappers
  import opened Configuration

  datatype DeviceStatus = SimLocked | LteNotConnected | InternetUnreachable | Ready

  datatype ServiceStatus = Reachable | Unreachable

  datatype Status = Status(device: DeviceStatus, email: ServiceStatus, ssh: ServiceStatus,
                           applications: map<string, ServiceStatus>)

  datatype StatusError = CommandFailed | ResponseUnreadable | UnsupportedSimStatus(pin: string)

  /**
    The answers of the modem and the network to one status request: the SIM's PIN status, the LTE
    service status, which hosts answer a ping, and the positions of the applications that do.
   */
  datatype Probes = Probes(pin: Result<string, StatusError>, lte: Result<string, StatusError>,
                           internet: bool, email: bool, ssh: bool, answering: set<nat>)

  function IsSimLocked(pin: string): (r: Result<bool, StatusError>) {
    if pin == "disabled" || pin == "verified" then Ok(false)
    else if pin == "not_verified" then Ok(true)
    else Err(UnsupportedSimStatus(pin))
  }

  function GetDeviceStatus(p: Probes): (r: Result<DeviceStatus, StatusError>) {
    match p.pin
    case Err(e) => Err(e)
    case Ok(pin) =>
      match IsSimLocked(pin)
      case Err(e) => Err(e)
      case Ok(true) => Ok(SimLocked)
      case Ok(false) =>
        match p.lte
        case Err(e) => Err(e)
        case Ok(service) =>
          if service != "available" then Ok(LteNotConnected)
          else if !p.internet then Ok(InternetUnreachable)
          else Ok(Ready)
  }

  function Reachability(answers: bool): ServiceStatus {
    if answers then Reachable else Unreachable
  }

  /** The map that probing the applications in turn fills: a later probe of a name replaces an earlier. */
  function ApplicationsStatus(applications: seq<Application>, answering: set<nat>): map<string, ServiceStatus> {
    if applications == [] then map[]
    else
      var last := |applications| - 1;
      ApplicationsStatus(applications[..last], answering)[applications[last].name := Reachability(last in answering)]
  }

  function GetStatus(c: Config, p: Probes): (r: Result<Status, StatusError>) {
    match GetDeviceStatus(p)
    case Err(e) => Err(e)
    case Ok(device) =>
      Ok(Status(device, Reachability(device == Ready && p.email), Reachability(device == Ready && p.ssh),
                ApplicationsStatus(c.applications, p.answering)))
  }

  method ReadStatus(c: Config, p: Probes) returns (r: Result<Status, StatusError>)
    ensures r == GetStatus(c, p)
  {
    var device := GetDeviceStatus(p);
    if device.Err? {
      return Err(device.error);
    }
    var email, ssh := Unreachable, Unreachable;
    if device.value == Ready {
      email, ssh := Reachability(p.email), Reachability(p.ssh);
    }
    var statuses: map<string, ServiceStatus> := map[];
    var i := 0;
    while i < |c.applications|
      invariant 0 <= i <= |c.applications|
      invariant statuses == ApplicationsStatus(c.applications[..i], p.answering)
    {
      statuses := statuses[c.applications[i].name := Reachability(i in p.answering)];
      assert c.applications[..i + 1][..i] == c.applications[..i];
      i := i + 1;
    }
    assert c.applications[..i] == c.applications;
    return Ok(Status(device.value, email, ssh, statuses));
  }

  /** Every status that a context holds is one that some probes gave. */
  ghost predicate IsProbed(c: Config, status: Status) {
    exists p :: GetStatus(c, p) == Ok(status)
  }

  lemma {:induction false} StatusOfName(applications: seq<Application>, answering: set<nat>, i: nat)
    requires i < |applications| && IsLastOfName(applications, i)
    ensures applications[i].name in ApplicationsStatus(applications, answering)
    ensures ApplicationsStatus(applications, answering)[applications[i].name] == Reachability(i in answering)
    decreases |applications|
  {
    var last := |applications| - 1;
    if i < last {
      StatusOfName(applications[..last], answering, i);
    }
  }

  lemma {:induction false} StatusNames(applications: seq<Application>, answering: set<nat>, name: string)
    ensures name in ApplicationsStatus(applications, answering)
            <==> exists i :: 0 <= i < |applications| && applications[i].name == name
    decreases |applications|
  {
    if applications != [] {
      var last := |applications| - 1;
      StatusNames(applications[..last], answering, name);
      if name in ApplicationsStatus(applications[..last], answering) {
        var i :| 0 <= i < last && applications[..last][i].name == name;
        assert applications[i].name == name;
      } else if i :| 0 <= i < |applications| && applications[i].name == name {
        assert i < last ==> applications[..last][i].name == name;
      }
    }
  }

  /** A device is ready exactly when its SIM needs no PIN, LTE is available and the internet answers. */
  lemma ReadyExactly(p: Probes)
    ensures GetDeviceStatus(p) == Ok(Ready) <==>
            (p.pin == Ok("disabled") || p.pin == Ok("verified")) && p.lte == Ok("available") && p.internet
  {
    assert p.pin.Ok? ==> p.pin == Ok(p.pin.value);
    assert p.lte.Ok? ==> p.lte == Ok(p.lte.value);
  }

  /** The SIM needs no PIN, by its answer. */
  predicate IsUnlocked(p: Probes) {
    p.pin == Ok("disabled") || p.pin == Ok("verified")
  }

  lemma Answered(r: Result<string, StatusError>)
    ensures r.Ok? ==> r == Ok(r.value)
    ensures r.Err? ==> r == Err(r.error)
  {
  }

  /** The device's status by the raw answers, and the only ways in which it cannot be told. */
  lemma DeviceIsExact(p: Probes, e: StatusError)
    ensures GetDeviceStatus(p) == Ok(SimLocked) <==> p.pin == Ok("not_verified")
    ensures GetDeviceStatus(p) == Ok(LteNotConnected) <==> IsUnlocked(p) && p.lte.Ok? && p.lte.value != "available"
    ensures GetDeviceStatus(p) == Ok(InternetUnreachable) <==> IsUnlocked(p) && p.lte == Ok("available") && !p.internet
    ensures GetDeviceStatus(p) == Ok(Ready) <==> IsUnlocked(p) && p.lte == Ok("available") && p.internet
    ensures GetDeviceStatus(p) == Err(e) <==>
            || p.pin == Err(e)
            || (p.pin.Ok? && p.pin.value !in {"disabled", "verified", "not_verified"}
                && e == UnsupportedSimStatus(p.pin.value))
            || (IsUnlocked(p) && p.lte == Err(e))
  {
    Answered(p.pin);
    Answered(p.lte);
  }

  /**
    Every status by the raw answers: the device's, each service by its own host on a ready device, and
    each application by the answer of the last one that is configured under its name.
   */
  lemma StatusIsExact(c: Config, p: Probes)
    ensures GetStatus(c, p).Ok? <==> GetDeviceStatus(p).Ok?
    ensures GetStatus(c, p).Err? ==> GetDeviceStatus(p) == Err(GetStatus(c, p).error)
    ensures GetStatus(c, p).Ok? ==>
              var status := GetStatus(c, p).value;
              && GetDeviceStatus(p) == Ok(status.device)
              && (status.email == Reachable <==> IsUnlocked(p) && p.lte == Ok("available") && p.internet && p.email)
              && (status.ssh == Reachable <==> IsUnlocked(p) && p.lte == Ok("available") && p.internet && p.ssh)
              && forall i :: 0 <= i < |c.applications| && IsLastOfName(c.applications, i) ==>
                   && c.applications[i].name in status.applications
                   && (status.applications[c.applications[i].name] == Reachable <==> i in p.answering)
  {
    ReadyExactly(p);
    if GetStatus(c, p).Ok? {
      forall i | 0 <= i < |c.applications| && IsLastOfName(c.applications, i)
        ensures c.applications[i].name in ApplicationsStatus(c.applications, p.answering)
        ensures ApplicationsStatus(c.applications, p.answering)[c.applications[i].name]
             == Reachability(i in p.answering)
      {
        StatusOfName(c.applications, p.answering, i);
      }
    }
  }

  predicate IsLastOfName(applications: seq<Application>, i: nat)
    requires i < |applications|
  {
    forall j :: i < j < |applications| ==> applications[j].name != applications[i].name
  }

  /** No status shows a service as reachable on a device that is not ready, and none lacks an application. */
  lemma ProbedStatus(c: Config, status: Status)
    requires IsProbed(c, status)
    ensures status.device != Ready ==> status.email == Unreachable && status.ssh == Unreachable
    ensures forall name :: name in status.applications
                           <==> exists i :: 0 <= i < |c.applications| && c.applications[i].name == name
  {
    var p :| GetStatus(c, p) == Ok(status);
    forall name
      ensures name in status.applications
              <==> exists i :: 0 <= i < |c.applications| && c.applications[i].name == name
    {
      StatusNames(c.applications, p.answering, name);
    }
  }

  ghost predicate DistinctNames(applications: seq<Application>) {
    forall i, j :: 0 <= i < j < |applications| ==> applications[i].name != applications[j].name
  }

  /** What `open` looks up under a name is the probe of the application that the name resolves to. */
  ghost predicate LooksUpResolved(applications: seq<Application>, answering: set<nat>, name: string) {
    var index := ApplicationOfName(applications, name);
    var statuses := ApplicationsStatus(applications, answering);
    index.Some? ==> name in statuses && statuses[name] == Reachability(index.value in answering)
  }

  lemma {:induction false} LastOfName(applications: seq<Application>, i: nat) returns (last: nat)
    requires i < |applications|
    ensures i <= last < |applications| && applications[last].name == applications[i].name
    ensures forall j :: last < j < |applications| ==> applications[j].name != applications[i].name
    decreases |applications| - i
  {
    last := i;
    if j :| i < j < |applications| && applications[j].name == applications[i].name {
      last := LastOfName(applications, j);
    }
  }

  /**
    The lookup is of the application resolved, whatever answers the probes give, exactly when the
    configured names are distinct: the map keeps the last probe of a name, `open` resolves the first.
   */
  lemma LookupIsOfResolved(applications: seq<Application>)
    ensures (forall answering, name :: LooksUpResolved(applications, answering, name))
            <==> DistinctNames(applications)
  {
    if DistinctNames(applications) {
      forall answering, name ensures LooksUpResolved(applications, answering, name) {
        var index := ApplicationOfName(applications, name);
        if index.Some? {
          StatusOfName(applications, answering, index.value);
        }
      }
    } else {
      var i, j :| 0 <= i < j < |applications| && applications[i].name == applications[j].name;
      var name := applications[i].name;
      var first := ApplicationOfName(applications, name).value;
      var last := LastOfName(applications, j);
      StatusOfName(applications, {first}, last);
      assert !LooksUpResolved(applications, {first}, name);
    }
  }
}
