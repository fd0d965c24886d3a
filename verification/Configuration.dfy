/** The configuration file's users, applications and limits. It does not change while the daemon runs. */
module Configuration {
  import opened Wrappers
  import opened Text

  const NANOS: nat := 1_000_000_000

  datatype User = User(name: string, phone: string, email: string)

  datatype Application = Application(name: string, endPoint: string)

  datatype Config = Config(users: seq<User>, applications: seq<Application>, tunnelMax: Option<u32>,
                           tunnelTimeoutSec: nat, refreshPeriodSec: nat, initMaxRetry: nat)

  /** The first user with a phone number. */
  function UserOfPhone(users: seq<User>, phone: string): (user: Option<User>)
    ensures user.Some? ==> user.value in users && user.value.phone == phone
    ensures user.None? ==> forall u :: u in users ==> u.phone != phone
  {
    if users == [] then None
    else if users[0].phone == phone then Some(users[0])
    else UserOfPhone(users[1..], phone)
  }

  /** The first user with a name. */
  function UserOfName(users: seq<User>, name: string): (user: Option<User>)
    ensures user.Some? ==> user.value in users && user.value.name == name
    ensures user.None? ==> forall u :: u in users ==> u.name != name
  {
    if users == [] then None
    else if users[0].name == name then Some(users[0])
    else UserOfName(users[1..], name)
  }

  ghost predicate DistinctUsers(c: Config) {
    forall u, v :: u in c.users && v in c.users && u.name == v.name ==> u == v
  }

  /** The position of the first application with a name. */
  function ApplicationOfName(applications: seq<Application>, name: string): (index: Option<nat>)
    ensures index.Some? ==> index.value < |applications| && applications[index.value].name == name
                            && forall i :: 0 <= i < index.value ==> applications[i].name != name
    ensures index.None? ==> forall i :: 0 <= i < |applications| ==> applications[i].name != name
  {
    if applications == [] then None
    else if applications[0].name == name then Some(0)
    else match ApplicationOfName(applications[1..], name)
      case Some(i) => Some(i + 1)
      case None => None
  }

  /** The first user with a phone number, and the first with a name, are found. */
  lemma {:induction false} FirstIsFound(users: seq<User>, i: nat)
    requires i < |users|
    ensures (forall j :: 0 <= j < i ==> users[j].phone != users[i].phone)
            ==> UserOfPhone(users, users[i].phone) == Some(users[i])
    ensures (forall j :: 0 <= j < i ==> users[j].name != users[i].name)
            ==> UserOfName(users, users[i].name) == Some(users[i])
  {
    if i > 0 {
      FirstIsFound(users[1..], i - 1);
      assert forall j :: 0 <= j < i - 1 ==> users[1..][j] == users[j + 1];
    }
  }

  /** The position of the first user with a name. */
  ghost predicate IsFirstOfName(users: seq<User>, name: string, i: nat) {
    && i < |users| && users[i].name == name
    && forall j :: 0 <= j < i ==> users[j].name != name
  }

  lemma {:induction false} FoundIsFirst(users: seq<User>, name: string) returns (i: nat)
    requires UserOfName(users, name).Some?
    ensures IsFirstOfName(users, name, i) && UserOfName(users, name) == Some(users[i])
  {
    i := 0;
    if users[0].name != name {
      var later := FoundIsFirst(users[1..], name);
      i := later + 1;
      assert forall j :: 0 < j < i ==> users[j] == users[1..][j - 1];
    }
  }
}
