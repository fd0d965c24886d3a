/** `clean_up_expired_tunnels` in closed form: the tunnels older than the timeout are released. */
module Expiry {
  import opened Configuration
  import opened PhoneNumbers
  import opened Sequences
  import opened Text
  import opened Tunnels

  /** The SMS that tells a user about an expired tunnel. */
  datatype Notice = Notice(to: string, reference: u32)

  function Age(t: Tunnel, now: nat): nat {
    if t.created <= now then now - t.created else 0
  }

  predicate IsExpired(c: Config, t: Tunnel, now: nat) {
    Age(t, now) > c.tunnelTimeoutSec * NANOS
  }

  function Expired(c: Config, tunnels: Registry, now: nat): set<u32> {
    set r | r in tunnels && IsExpired(c, tunnels[r], now)
  }

  function Expire(c: Config, w: World, now: nat): World {
    Release(w, Expired(c, w.tunnels, now))
  }

  /** The expired references among the first `n` of a traversal, in its order. */
  function ExpiredIn(c: Config, tunnels: Registry, order: seq<u32>, n: nat, now: nat): (references: seq<u32>)
    requires n <= |order| && forall i :: 0 <= i < |order| ==> order[i] in tunnels
    ensures forall r :: r in references ==> r in tunnels && IsExpired(c, tunnels[r], now)
    ensures forall i :: 0 <= i < n && IsExpired(c, tunnels[order[i]], now) ==> order[i] in references
  {
    if n == 0 then []
    else
      ExpiredIn(c, tunnels, order, n - 1, now)
      + if IsExpired(c, tunnels[order[n - 1]], now) then [order[n - 1]] else []
  }

  function NoticeOf(c: Config, tunnels: Registry, r: u32): (notices: seq<Notice>)
    requires r in tunnels
  {
    match UserOfName(c.users, tunnels[r].user)
    case Some(user) => [Notice(user.phone, r)]
    case None => []
  }

  /** The notices of some references: one for each whose user is found by name. */
  function Notices(c: Config, tunnels: Registry, references: seq<u32>): (notices: seq<Notice>)
    requires forall r :: r in references ==> r in tunnels
  {
    if references == [] then []
    else
      var last := |references| - 1;
      Notices(c, tunnels, references[..last]) + NoticeOf(c, tunnels, references[last])
  }

  /** The phone number found for a tunnel's user cannot be encoded, which panics. */
  predicate CannotNotify(c: Config, t: Tunnel) {
    var user := UserOfName(c.users, t.user);
    user.Some? && EncodePhone(user.value.phone).Panicked?
  }

  /** The notice about a tunnel panics: it gets to encoding if the serial port can be opened. */
  predicate NoticePanics(c: Config, tunnels: Registry, r: u32, portFails: set<u32>)
    requires r in tunnels
  {
    r !in portFails && CannotNotify(c, tunnels[r])
  }

  /** How many of some references are dealt with before a notice panics, if one does. */
  function BeforePanic(c: Config, tunnels: Registry, references: seq<u32>, portFails: set<u32>): (n: nat)
    requires forall r :: r in references ==> r in tunnels
    ensures n <= |references|
    ensures n < |references| ==> NoticePanics(c, tunnels, references[n], portFails)
    ensures forall i :: 0 <= i < n ==> !NoticePanics(c, tunnels, references[i], portFails)
  {
    if references == [] || NoticePanics(c, tunnels, references[0], portFails) then 0
    else 1 + BeforePanic(c, tunnels, references[1..], portFails)
  }

  /** Some notice of a clean-up panics. */
  predicate CleanUpPanics(c: Config, tunnels: Registry, now: nat, portFails: set<u32>) {
    exists r :: r in tunnels && IsExpired(c, tunnels[r], now) && NoticePanics(c, tunnels, r, portFails)
  }

  /** The notices that a clean-up sends before it ends, or panics. */
  function CleanUpNotices(c: Config, tunnels: Registry, order: seq<u32>, now: nat, portFails: set<u32>)
      : (notices: seq<Notice>)
    requires forall i :: 0 <= i < |order| ==> order[i] in tunnels
  {
    var expired := ExpiredIn(c, tunnels, order, |order|, now);
    Notices(c, tunnels, expired[..BeforePanic(c, tunnels, expired, portFails)])
  }

  lemma PanicIsThere(c: Config, tunnels: Registry, references: seq<u32>, portFails: set<u32>)
    requires forall r :: r in references ==> r in tunnels
    ensures BeforePanic(c, tunnels, references, portFails) < |references|
            <==> exists r :: r in references && NoticePanics(c, tunnels, r, portFails)
  {
    var n := BeforePanic(c, tunnels, references, portFails);
    if n < |references| {
      assert references[n] in references;
    }
  }

  /** A clean-up deals with all that has expired exactly when no notice panics. */
  lemma PanicsExactly(c: Config, tunnels: Registry, order: seq<u32>, now: nat, portFails: set<u32>)
    requires IsOrder(order, tunnels)
    ensures forall i :: 0 <= i < |order| ==> order[i] in tunnels
    ensures var expired := ExpiredIn(c, tunnels, order, |order|, now);
            BeforePanic(c, tunnels, expired, portFails) < |expired| <==> CleanUpPanics(c, tunnels, now, portFails)
  {
    ExpiredInOrder(c, tunnels, order, now);
    var expired := ExpiredIn(c, tunnels, order, |order|, now);
    PanicIsThere(c, tunnels, expired, portFails);
    forall r | r in tunnels && IsExpired(c, tunnels[r], now) ensures r in expired {
      assert r in Expired(c, tunnels, now) && r in Elements(expired);
    }
  }

  lemma {:induction false} ExpiredGrows(c: Config, tunnels: Registry, order: seq<u32>, n: nat, m: nat, now: nat)
    requires n <= m <= |order| && forall i :: 0 <= i < |order| ==> order[i] in tunnels
    ensures ExpiredIn(c, tunnels, order, n, now) <= ExpiredIn(c, tunnels, order, m, now)
    decreases m
  {
    if n < m {
      ExpiredGrows(c, tunnels, order, n, m - 1, now);
    }
  }

  lemma {:induction false} BeforePanicIs(c: Config, tunnels: Registry, all: seq<u32>, n: nat, portFails: set<u32>)
    requires n < |all| && forall q :: q in all ==> q in tunnels
    requires NoticePanics(c, tunnels, all[n], portFails)
    requires forall i :: 0 <= i < n ==> !NoticePanics(c, tunnels, all[i], portFails)
    ensures BeforePanic(c, tunnels, all, portFails) == n
  {
  }

  lemma PrefixAndRest<T>(whole: seq<T>, told: seq<T>, r: T)
    requires told + [r] <= whole
    ensures |told| < |whole| && whole[|told|] == r && whole[..|told|] == told
    ensures forall i :: 0 <= i < |told| ==> whole[i] in told
  {
    assert forall i :: 0 <= i < |told| ==> whole[i] == told[i];
  }

  lemma PanicsBehind(c: Config, tunnels: Registry, all: seq<u32>, told: seq<u32>, r: u32, portFails: set<u32>)
    requires told + [r] <= all && forall q :: q in all ==> q in tunnels
    requires r in tunnels && NoticePanics(c, tunnels, r, portFails)
    requires forall q :: q in told ==> q in tunnels && !NoticePanics(c, tunnels, q, portFails)
    ensures all[..BeforePanic(c, tunnels, all, portFails)] == told
  {
    PrefixAndRest(all, told, r);
    BeforePanicIs(c, tunnels, all, |told|, portFails);
  }

  /** What the first `n` of a traversal have come to without a panic. */
  ghost predicate IsToldOf(c: Config, tunnels: Registry, order: seq<u32>, n: nat, now: nat, portFails: set<u32>,
                           references: seq<u32>, notices: seq<Notice>)
    requires forall i :: 0 <= i < |order| ==> order[i] in tunnels
  {
    && n <= |order| && references == ExpiredIn(c, tunnels, order, n, now)
    && (forall r :: r in references ==> !NoticePanics(c, tunnels, r, portFails))
    && notices == Notices(c, tunnels, references)
  }

  lemma NextIsTold(c: Config, tunnels: Registry, order: seq<u32>, n: nat, now: nat, portFails: set<u32>,
                   references: seq<u32>, notices: seq<Notice>)
    requires n < |order| && forall i :: 0 <= i < |order| ==> order[i] in tunnels
    requires IsToldOf(c, tunnels, order, n, now, portFails, references, notices)
    ensures !IsExpired(c, tunnels[order[n]], now)
            ==> IsToldOf(c, tunnels, order, n + 1, now, portFails, references, notices)
    ensures IsExpired(c, tunnels[order[n]], now) && !NoticePanics(c, tunnels, order[n], portFails)
            ==> IsToldOf(c, tunnels, order, n + 1, now, portFails, references + [order[n]],
                         notices + NoticeOf(c, tunnels, order[n]))
  {
    NoticesNext(c, tunnels, references, order[n]);
    Empty(references);
  }

  /** The first panic of a traversal decides what has been sent. */
  lemma PanicsAt(c: Config, tunnels: Registry, order: seq<u32>, i: nat, now: nat, portFails: set<u32>)
    requires i < |order| && forall j :: 0 <= j < |order| ==> order[j] in tunnels
    requires IsExpired(c, tunnels[order[i]], now) && NoticePanics(c, tunnels, order[i], portFails)
    requires forall r :: r in ExpiredIn(c, tunnels, order, i, now) ==> !NoticePanics(c, tunnels, r, portFails)
    ensures CleanUpPanics(c, tunnels, now, portFails)
    ensures CleanUpNotices(c, tunnels, order, now, portFails)
         == Notices(c, tunnels, ExpiredIn(c, tunnels, order, i, now))
  {
    ExpiredGrows(c, tunnels, order, i + 1, |order|, now);
    PanicsBehind(c, tunnels, ExpiredIn(c, tunnels, order, |order|, now), ExpiredIn(c, tunnels, order, i, now),
                 order[i], portFails);
  }

  lemma NothingPanics(c: Config, tunnels: Registry, order: seq<u32>, now: nat, portFails: set<u32>)
    requires IsOrder(order, tunnels) && forall i :: 0 <= i < |order| ==> order[i] in tunnels
    requires forall r :: r in ExpiredIn(c, tunnels, order, |order|, now) ==> !NoticePanics(c, tunnels, r, portFails)
    ensures !CleanUpPanics(c, tunnels, now, portFails)
    ensures CleanUpNotices(c, tunnels, order, now, portFails)
         == Notices(c, tunnels, ExpiredIn(c, tunnels, order, |order|, now))
  {
    var expired := ExpiredIn(c, tunnels, order, |order|, now);
    PanicsExactly(c, tunnels, order, now, portFails);
    PanicIsThere(c, tunnels, expired, portFails);
    Whole(expired);
  }

  lemma NoticesNext(c: Config, tunnels: Registry, references: seq<u32>, r: u32)
    requires r in tunnels && forall q :: q in references ==> q in tunnels
    ensures Notices(c, tunnels, references + [r]) == Notices(c, tunnels, references) + NoticeOf(c, tunnels, r)
  {
    assert (references + [r])[..|references|] == references;
  }

  /** Some of the children of some tunnels have been released. */
  predicate SomeReleased(tunnels: Registry, before: set<nat>, released: set<nat>, references: seq<u32>) {
    before <= released <= before + Children(tunnels, Elements(references))
  }

  lemma SomeReleasedNext(tunnels: Registry, before: set<nat>, released: set<nat>, references: seq<u32>, r: u32)
    requires r in tunnels && SomeReleased(tunnels, before, released, references)
    ensures SomeReleased(tunnels, before, released, references + [r])
    ensures SomeReleased(tunnels, before, released + {tunnels[r].process}, references + [r])
  {
    ChildrenNext(tunnels, references, r);
  }

  lemma ChildrenNext(tunnels: Registry, references: seq<u32>, r: u32)
    requires r in tunnels
    ensures Children(tunnels, Elements(references + [r]))
         == Children(tunnels, Elements(references)) + {tunnels[r].process}
  {
    var a, b := Elements(references + [r]), Elements(references);
    assert a == b + {r};
    assert forall p :: p in Children(tunnels, a) <==> p in Children(tunnels, b) || p == tunnels[r].process by {
      assert forall q :: q in a && q in tunnels <==> (q in b && q in tunnels) || q == r;
    }
  }

  /** All that a whole traversal collects is all that has expired. */
  lemma ExpiredInOrder(c: Config, tunnels: Registry, order: seq<u32>, now: nat)
    requires IsOrder(order, tunnels)
    ensures forall i :: 0 <= i < |order| ==> order[i] in tunnels
    ensures Elements(ExpiredIn(c, tunnels, order, |order|, now)) == Expired(c, tunnels, now)
  {
    forall i | 0 <= i < |order| ensures order[i] in tunnels {
      assert order[i] in order;
    }
    forall r | r in Expired(c, tunnels, now) ensures r in ExpiredIn(c, tunnels, order, |order|, now) {
      var i :| 0 <= i < |order| && order[i] == r;
    }
  }

  /** Expiry is a filter: what stays is every tunnel within the timeout, as it was, and nothing else. */
  lemma ExpireFilters(c: Config, w: World, now: nat)
    ensures forall r :: r in Expire(c, w, now).tunnels
                        <==> r in w.tunnels && Age(w.tunnels[r], now) <= c.tunnelTimeoutSec * 1_000_000_000
    ensures Kept(Expire(c, w, now).tunnels, w.tunnels)
    ensures forall r :: r in w.tunnels && r !in Expire(c, w, now).tunnels
                        ==> w.tunnels[r].process in Expire(c, w, now).released
  {
  }

  /** A notice about a tunnel, to the phone of the first configured user of the tunnel's user name. */
  ghost predicate IsNoticeOf(c: Config, tunnels: Registry, r: u32, notice: Notice) {
    && r in tunnels && notice.reference == r
    && exists i: nat :: IsFirstOfName(c.users, tunnels[r].user, i) && c.users[i].phone == notice.to
  }

  lemma OneNotice(c: Config, tunnels: Registry, r: u32)
    requires r in tunnels && UserOfName(c.users, tunnels[r].user).Some?
    ensures |NoticeOf(c, tunnels, r)| == 1 && IsNoticeOf(c, tunnels, r, NoticeOf(c, tunnels, r)[0])
  {
    var i := FoundIsFirst(c.users, tunnels[r].user);
  }

  /** When every tunnel's user is configured, each expired tunnel is notified, in turn. */
  lemma {:induction false} EveryExpiryNotified(c: Config, tunnels: Registry, references: seq<u32>)
    requires forall r :: r in references ==> r in tunnels && UserOfName(c.users, tunnels[r].user).Some?
    ensures |Notices(c, tunnels, references)| == |references|
    ensures forall i :: 0 <= i < |references|
                        ==> IsNoticeOf(c, tunnels, references[i], Notices(c, tunnels, references)[i])
    decreases |references|
  {
    if references != [] {
      var last := |references| - 1;
      EveryExpiryNotified(c, tunnels, references[..last]);
      OneNotice(c, tunnels, references[last]);
    }
  }
}
