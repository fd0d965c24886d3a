/** The registry of open tunnels in `Context`, and the ssh child processes behind them. */
module Tunnels {
  import opened Wrappers
  import opened Status
  import opened Text

  const REFERENCES: nat := 0x1_0000_0000

  /** `process` identifies the owned child, `created` is in nanoseconds. */
  datatype Tunnel = Tunnel(user: string, application: string, process: nat, created: nat)

  type Registry = map<u32, Tunnel>

  /**
    What requests and ticks change: the cached status, the registry, and the ssh children. Children
    are numbered in the order they are spawned; a child is released when it is killed or when its
    handle is dropped, as every one is spawned with `kill_on_drop`.
   */
  datatype World = World(status: Status, tunnels: Registry, spawned: nat, released: set<nat>)

  /** The order in which a traversal of the hash map happens to visit it. */
  ghost predicate IsOrder(order: seq<u32>, tunnels: Registry) {
    && (forall r :: r in order <==> r in tunnels)
    && (forall i, j :: 0 <= i < j < |order| ==> order[i] != order[j])
  }

  /** `tunnels.len() as u32`. */
  function NewReference(tunnels: Registry): u32 {
    |tunnels| % REFERENCES
  }

  lemma NewReferenceIsSize(tunnels: Registry)
    requires |tunnels| < REFERENCES
    ensures NewReference(tunnels) == |tunnels|
  {
  }

  /** A child is spawned and becomes the tunnel of a new reference; a tunnel displaced is dropped. */
  function Adopt(w: World, user: string, application: string, created: nat): World {
    var r := NewReference(w.tunnels);
    w.(tunnels := w.tunnels[r := Tunnel(user, application, w.spawned, created)],
       spawned := w.spawned + 1,
       released := w.released + if r in w.tunnels then {w.tunnels[r].process} else {})
  }

  /** A child is spawned and dropped without having become a tunnel. */
  function Discard(w: World): World {
    w.(spawned := w.spawned + 1, released := w.released + {w.spawned})
  }

  /** The tunnels of some references are taken out and their children released. */
  function Release(w: World, references: set<u32>): World {
    w.(tunnels := w.tunnels - references,
       released := w.released + Children(w.tunnels, references))
  }

  function Elements(references: seq<u32>): (s: set<u32>) {
    set r | r in references
  }

  /** The children of some of the tunnels. */
  function Children(tunnels: Registry, references: set<u32>): set<nat> {
    set r | r in references && r in tunnels :: tunnels[r].process
  }

  ghost predicate IsOwned(tunnels: Registry, process: nat) {
    exists r :: r in tunnels && tunnels[r].process == process
  }

  /** Every child ever spawned is owned by exactly one tunnel or has been released, never both. */
  ghost predicate Conserved(w: World) {
    && (forall r :: r in w.tunnels ==> w.tunnels[r].process < w.spawned && w.tunnels[r].process !in w.released)
    && (forall r, q :: r in w.tunnels && q in w.tunnels && w.tunnels[r].process == w.tunnels[q].process ==> r == q)
    && (forall p :: p in w.released ==> p < w.spawned)
    && (forall p: nat :: p < w.spawned && p !in w.released ==> IsOwned(w.tunnels, p))
  }

  predicate SamePair(a: Tunnel, b: Tunnel) {
    a.user == b.user && a.application == b.application
  }

  /** No two tunnels are of the same user and application. */
  ghost predicate Unpaired(tunnels: Registry) {
    forall r, q :: r in tunnels && q in tunnels && SamePair(tunnels[r], tunnels[q]) ==> r == q
  }

  /** A configured limit bounds the number of tunnels and every reference. */
  ghost predicate Within(max: Option<u32>, tunnels: Registry) {
    max.Some? ==> |tunnels| <= max.value && forall r :: r in tunnels ==> r < max.value
  }

  /** The references are 0 up to the number of tunnels. */
  ghost predicate Dense(tunnels: Registry) {
    forall r: u32 :: r in tunnels <==> r < |tunnels|
  }

  /** Every tunnel of `before` is still there, as it was. */
  ghost predicate Kept(before: Registry, after: Registry) {
    forall r :: r in before ==> r in after && after[r] == before[r]
  }

  lemma StillOwned(tunnels: Registry, r: u32, t: Tunnel, p: nat)
    requires IsOwned(tunnels, p) && (r in tunnels ==> tunnels[r].process != p)
    ensures IsOwned(tunnels[r := t], p)
  {
    var q :| q in tunnels && tunnels[q].process == p;
    assert tunnels[r := t][q].process == p;
  }

  lemma InsertKeepsOwners(tunnels: Registry, r: u32, t: Tunnel)
    requires forall q, p :: q in tunnels && p in tunnels && tunnels[q].process == tunnels[p].process ==> q == p
    requires forall q :: q in tunnels ==> tunnels[q].process != t.process
    ensures var after := tunnels[r := t];
            forall q, p :: q in after && p in after && after[q].process == after[p].process ==> q == p
  {
  }

  lemma AdoptConserves(w: World, user: string, application: string, created: nat)
    requires Conserved(w)
    ensures Conserved(Adopt(w, user, application, created))
  {
    var r, t := NewReference(w.tunnels), Tunnel(user, application, w.spawned, created);
    var after := Adopt(w, user, application, created);
    InsertKeepsOwners(w.tunnels, r, t);
    forall p: nat | p < after.spawned && p !in after.released ensures IsOwned(after.tunnels, p) {
      if p == w.spawned {
        assert after.tunnels[r].process == p;
      } else {
        StillOwned(w.tunnels, r, t, p);
      }
    }
  }

  lemma DiscardConserves(w: World)
    requires Conserved(w)
    ensures Conserved(Discard(w))
  {
  }

  lemma ReleaseConserves(w: World, references: set<u32>)
    requires Conserved(w)
    ensures Conserved(Release(w, references))
  {
    var after := Release(w, references);
    forall p: nat | p < after.spawned && p !in after.released ensures IsOwned(after.tunnels, p) {
      assert IsOwned(w.tunnels, p);
      var q :| q in w.tunnels && w.tunnels[q].process == p;
      assert q !in references;
      assert after.tunnels[q].process == p;
    }
  }

  lemma {:induction false} RangeSize(n: nat) returns (range: set<nat>)
    ensures forall k: nat :: k in range <==> k < n
    ensures |range| == n
  {
    range := {};
    if n > 0 {
      var smaller := RangeSize(n - 1);
      range := smaller + {n - 1};
    }
  }

  lemma {:induction false} ProcessCount(tunnels: Registry) returns (processes: set<nat>)
    requires forall r, q :: r in tunnels && q in tunnels && tunnels[r].process == tunnels[q].process ==> r == q
    ensures forall p :: p in processes <==> IsOwned(tunnels, p)
    ensures |processes| == |tunnels|
    decreases |tunnels|
  {
    processes := {};
    if tunnels != map[] {
      var r :| r in tunnels;
      var others := tunnels - {r};
      assert tunnels.Keys == others.Keys + {r};
      var smaller := ProcessCount(others);
      assert !IsOwned(others, tunnels[r].process);
      forall p ensures IsOwned(tunnels, p) <==> IsOwned(others, p) || p == tunnels[r].process {
        OwnedOthers(tunnels, r, p);
      }
      processes := smaller + {tunnels[r].process};
    }
  }

  lemma OwnedOthers(tunnels: Registry, r: u32, p: nat)
    requires r in tunnels
    ensures IsOwned(tunnels, p) <==> IsOwned(tunnels - {r}, p) || p == tunnels[r].process
  {
    var others := tunnels - {r};
    if IsOwned(tunnels, p) {
      var q :| q in tunnels && tunnels[q].process == p;
      assert q == r || (q in others && others[q].process == p);
    }
    if IsOwned(others, p) {
      var q :| q in others && others[q].process == p;
      assert q in tunnels && tunnels[q].process == p;
    }
  }

  /** The children add up: those spawned are those released and those behind a tunnel. */
  lemma ConservedCount(w: World)
    requires Conserved(w)
    ensures w.spawned == |w.tunnels| + |w.released|
  {
    var owned := ProcessCount(w.tunnels);
    var all := RangeSize(w.spawned);
    forall p: nat ensures p in all <==> p in owned || p in w.released {
      assert p in owned <==> IsOwned(w.tunnels, p);
    }
    assert all == owned + w.released;
    assert owned !! w.released;
  }

  lemma {:induction false} SubsetSize(a: set<u32>, b: set<u32>)
    requires a <= b
    ensures |a| <= |b|
    decreases |a|
  {
    if a != {} {
      var x :| x in a;
      SubsetSize(a - {x}, b - {x});
    }
  }

  lemma {:induction false} ReferenceRange(n: u32) returns (range: set<u32>)
    ensures forall k: u32 :: k in range <==> k < n
    ensures |range| == n
  {
    range := {};
    if n > 0 {
      var smaller := ReferenceRange(n - 1);
      range := smaller + {n - 1};
    }
  }

  /** Pigeonhole: with a reference at or beyond the number of tunnels, one below it is free. */
  lemma FreeBelow(tunnels: Registry, high: u32)
    requires high in tunnels && high >= |tunnels|
    ensures exists r: u32 :: r < |tunnels| && r !in tunnels
  {
    var range := ReferenceRange(|tunnels|);
    if range <= tunnels.Keys {
      SubsetSize(range + {high}, tunnels.Keys);
      assert false;
    }
    var r :| r in range && r !in tunnels.Keys;
  }

  lemma InsertKeeps(tunnels: Registry, r: u32, t: Tunnel)
    requires r in tunnels ==> tunnels[r] != t
    ensures Kept(tunnels, tunnels[r := t]) <==> r !in tunnels
  {
    if r in tunnels {
      assert tunnels[r := t][r] != tunnels[r];
    }
  }

  lemma FreeWhenDisplaced(tunnels: Registry)
    requires |tunnels| < REFERENCES && NewReference(tunnels) in tunnels
    ensures exists free: u32 :: free < |tunnels| && free !in tunnels
  {
    NewReferenceIsSize(tunnels);
    FreeBelow(tunnels, NewReference(tunnels));
  }

  /**
    The allocator, exactly: a new tunnel leaves all others alone if and only if the reference
    `len()` is not live. If it is live, its tunnel is displaced and its child released, the number of
    tunnels stays the same, and a smaller reference was free all along.
   */
  lemma AllocatorIsExact(w: World, user: string, application: string, created: nat)
    requires Conserved(w)
    ensures var r, after := NewReference(w.tunnels), Adopt(w, user, application, created);
            && (Kept(w.tunnels, after.tunnels) <==> r !in w.tunnels)
            && |after.tunnels| == |w.tunnels| + (if r in w.tunnels then 0 else 1)
            && (r in w.tunnels ==> w.tunnels[r].process in after.released)
            && (r in w.tunnels && |w.tunnels| < REFERENCES ==>
                  exists free: u32 :: free < |w.tunnels| && free !in w.tunnels)
  {
    var r, t := NewReference(w.tunnels), Tunnel(user, application, w.spawned, created);
    InsertSize(w.tunnels, r, t);
    InsertKeeps(w.tunnels, r, t);
    if r in w.tunnels && |w.tunnels| < REFERENCES {
      FreeWhenDisplaced(w.tunnels);
    }
  }

  lemma InsertSize(tunnels: Registry, r: u32, t: Tunnel)
    ensures tunnels[r := t].Keys == tunnels.Keys + {r}
    ensures |tunnels[r := t]| == |tunnels| + (if r in tunnels then 0 else 1)
  {
    assert |tunnels[r := t]| == |tunnels[r := t].Keys|;
    assert |tunnels| == |tunnels.Keys|;
    if r in tunnels {
      assert tunnels.Keys + {r} == tunnels.Keys;
    }
  }

  lemma InsertKeepsDense(tunnels: Registry, r: u32, t: Tunnel)
    requires Dense(tunnels) && r == |tunnels|
    ensures r !in tunnels && Dense(tunnels[r := t])
  {
    var after := tunnels[r := t];
    InsertSize(tunnels, r, t);
    forall q: u32 ensures q in after <==> q < |after| {
      assert q in after <==> q in tunnels || q == r;
    }
  }

  /** Dense references are kept by opening, which then displaces nothing. */
  lemma AdoptKeepsDense(w: World, user: string, application: string, created: nat)
    requires Dense(w.tunnels) && |w.tunnels| < REFERENCES
    ensures NewReference(w.tunnels) !in w.tunnels
    ensures Dense(Adopt(w, user, application, created).tunnels)
  {
    NewReferenceIsSize(w.tunnels);
    InsertKeepsDense(w.tunnels, NewReference(w.tunnels), Tunnel(user, application, w.spawned, created));
  }

  /** Of the closings of one tunnel, those of the highest reference, and only those, keep them dense. */
  lemma ReleaseKeepsDense(w: World, r: u32)
    requires Dense(w.tunnels) && r in w.tunnels
    ensures Dense(Release(w, {r}).tunnels) <==> r == |w.tunnels| - 1
  {
    var after := Release(w, {r});
    assert after.tunnels.Keys == w.tunnels.Keys - {r};
    assert |after.tunnels| == |w.tunnels| - 1;
    if r != |w.tunnels| - 1 {
      var q: u32 := r;
      assert q < |after.tunnels| && q !in after.tunnels;
    }
  }

  lemma AdoptKeepsLimits(max: Option<u32>, w: World, user: string, application: string, created: nat)
    requires Within(max, w.tunnels) && Unpaired(w.tunnels)
    requires max.Some? ==> |w.tunnels| < max.value
    requires forall r :: r in w.tunnels ==> w.tunnels[r].user != user || w.tunnels[r].application != application
    ensures Within(max, Adopt(w, user, application, created).tunnels)
    ensures Unpaired(Adopt(w, user, application, created).tunnels)
  {
    var r, after := NewReference(w.tunnels), Adopt(w, user, application, created);
    InsertSize(w.tunnels, r, after.tunnels[r]);
    if max.Some? {
      NewReferenceIsSize(w.tunnels);
    }
  }

  lemma ReleaseKeepsLimits(max: Option<u32>, w: World, references: set<u32>)
    requires Within(max, w.tunnels) && Unpaired(w.tunnels)
    ensures Within(max, Release(w, references).tunnels)
    ensures Unpaired(Release(w, references).tunnels)
  {
    var after := Release(w, references);
    assert after.tunnels.Keys == w.tunnels.Keys - references;
    assert w.tunnels.Keys == after.tunnels.Keys + w.tunnels.Keys * references;
  }
}
