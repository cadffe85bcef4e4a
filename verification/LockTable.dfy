/**
 * The lease table of one drive node (src/cluster/lock.rs) and the fence check in
 * front of its mutating handlers (src/cluster/server.rs). Times are milliseconds.
 */
module LockTable {
  import opened Wrappers

  /** Lease of a distributed lock. */
  const LOCK_TTL: int := 30_000
  /** Above this many slots an acquire first collects long-idle free slots. */
  const GC_ABOVE: nat := 4096

  /** Current holder ("" when free), lease end, highest fencing token granted. */
  datatype Slot = Slot(owner: string, expiry: int, token: nat)

  type Slots = map<string, Slot>

  predicate Idle(s: Slot, now: int) {
    s.owner == "" && s.expiry + LOCK_TTL * 10 <= now
  }

  /** The table after the opportunistic collection at the start of an acquire. */
  function Retained(m: Slots, now: int): Slots {
    if |m| > GC_ABOVE then map r | r in m && !Idle(m[r], now) :: m[r] else m
  }

  function SlotOf(m: Slots, resource: string, now: int): Slot {
    if resource in m then m[resource] else Slot("", now, 0)
  }

  predicate HeldByOther(s: Slot, owner: string, now: int) {
    s.owner != "" && s.expiry > now && s.owner != owner
  }

  /** The slot after a grant: a live holder keeps its token, anyone else gets the next one. */
  function Regranted(s: Slot, owner: string, ttl: int, now: int): Slot {
    Slot(owner, now + ttl, if s.owner == owner && s.expiry > now then s.token else s.token + 1)
  }

  /** Table and answer of one acquire. */
  function Acquired(m: Slots, resource: string, owner: string, ttl: int, now: int): (Slots, Option<nat>) {
    var g := Retained(m, now);
    var s := SlotOf(g, resource, now);
    if HeldByOther(s, owner, now) then (g, None)
    else var s' := Regranted(s, owner, ttl, now); (g[resource := s'], Some(s'.token))
  }

  function Released(m: Slots, resource: string, owner: string): Slots {
    if resource in m && m[resource].owner == owner then m[resource := m[resource].(owner := "")] else m
  }

  /** Whether a write carrying `token` is current. */
  predicate FenceOk(m: Slots, resource: string, token: nat) {
    resource in m ==> token >= m[resource].token
  }

  /** The check of the put, delete, mkdir and rename handlers: only a well-formed pair of fence headers can reject. */
  predicate FencedOut(m: Slots, resource: Option<string>, token: Option<nat>) {
    resource.Some? && token.Some? && !FenceOk(m, resource.value, token.value)
  }

  /** An unexpired lease of somebody else. */
  predicate Taken(m: Slots, resource: string, owner: string, now: int) {
    && resource in m && m[resource].owner != "" && m[resource].owner != owner && m[resource].expiry > now
  }

  /** The slot of `r` was collected: a large table, and a free slot ten lease times past its end. */
  predicate DroppedFrom(m: Slots, r: string, now: int) {
    r in m && |m| > GC_ABOVE && m[r].owner == "" && m[r].expiry + LOCK_TTL * 10 <= now
  }

  /**
   * What an acquire does, slot by slot. An unexpired lease of another owner is refused
   * and stays; in every other case the caller gets the lease, under its own token if it
   * still holds it and under the next one otherwise. No other slot changes, but for
   * those collected.
   */
  lemma AcquiredMeaning(m: Slots, resource: string, owner: string, ttl: int, now: int)
    ensures var (m', token) := Acquired(m, resource, owner, ttl, now);
            && (token.None? <==> Taken(m, resource, owner, now))
            && (token.None? ==> resource in m' && m'[resource] == m[resource])
            && (token.Some? ==>
                  && resource in m' && m'[resource].owner == owner && m'[resource].expiry == now + ttl && m'[resource].token == token.value
                  && token.value == (if resource !in m || DroppedFrom(m, resource, now) then 1
                                     else if m[resource].owner == owner && m[resource].expiry > now then m[resource].token
                                     else m[resource].token + 1))
            && (forall r :: r != resource ==> (r in m' <==> r in m && !DroppedFrom(m, r, now)))
            && (forall r :: r != resource && r in m' ==> m'[r] == m[r])
  {
  }

  /** A released slot is free: whoever asks next gets it, under the next token. */
  lemma ReleasedMeaning(m: Slots, resource: string, owner: string, next: string, ttl: int, now: int)
    requires resource in m && m[resource].owner == owner && next != ""
    ensures var m' := Released(m, resource, owner);
            && m'.Keys == m.Keys && m'[resource].owner == "" && m'[resource].token == m[resource].token
            && (forall r :: r in m && r != resource ==> m'[r] == m[r])
            && Acquired(m', resource, next, ttl, now).1 == Some(if DroppedFrom(m', resource, now) then 1 else m[resource].token + 1)
  {
    AcquiredMeaning(Released(m, resource, owner), resource, next, ttl, now);
  }

  class LockTable {
    var inner: Slots

    constructor ()
      ensures inner == map[]
    {
      inner := map[];
    }

    /** The opportunistic collection of a large table. */
    method Collect(now: int)
      modifies this
      ensures inner == Retained(old(inner), now)
    {
      if |inner| > GC_ABOVE {
        inner := map r | r in inner && (inner[r].owner != "" || inner[r].expiry + LOCK_TTL * 10 > now) :: inner[r];
      }
    }

    method Acquire(resource: string, owner: string, ttl: int, now: int) returns (token: Option<nat>)
      modifies this
      ensures (inner, token) == Acquired(old(inner), resource, owner, ttl, now)
      ensures token.None? <==> Taken(old(inner), resource, owner, now)
      ensures resource in inner
              && inner[resource] == if token.None? then old(inner)[resource] else Slot(owner, now + ttl, token.value)
    {
      AcquiredMeaning(inner, resource, owner, ttl, now);
      hide Taken, DroppedFrom, Retained;
      Collect(now);
      ghost var retained := inner;
      if resource !in inner {
        inner := inner[resource := Slot("", now, 0)];
      }
      var slot := inner[resource];
      if slot.owner != "" && slot.expiry > now && slot.owner != owner {
        return None;
      }
      if !(slot.owner == owner && slot.expiry > now) {
        slot := slot.(token := slot.token + 1);
      }
      slot := slot.(owner := owner, expiry := now + ttl);
      inner := inner[resource := slot];
      assert inner == retained[resource := slot];
      token := Some(slot.token);
    }

    method Release(resource: string, owner: string) returns (released: bool)
      modifies this
      ensures inner == Released(old(inner), resource, owner)
      ensures released <==> resource in old(inner) && old(inner)[resource].owner == owner
      ensures released ==> inner == old(inner)[resource := Slot("", old(inner)[resource].expiry, old(inner)[resource].token)]
    {
      if resource in inner && inner[resource].owner == owner {
        inner := inner[resource := inner[resource].(owner := "")];
        released := true;
      } else {
        released := false;
      }
    }

    method IsCurrent(resource: string, token: nat) returns (ok: bool)
      ensures ok <==> FenceOk(inner, resource, token)
    {
      ok := if resource in inner then token >= inner[resource].token else true;
    }
  }

  // ---------------------------------------------------------------------------
  // Every run of one node
  // ---------------------------------------------------------------------------

  /** One granted acquire: the holder, its token, its lease end, and how often the slot had been collected before. */
  datatype Lease = Lease(resource: string, owner: string, token: nat, expiry: int, era: nat)

  /** One release by the holder, and how many leases had been granted before it. */
  datatype Ended = Ended(resource: string, owner: string, after: nat)

  /** A node with its clock, the logs of everything it granted and of every release, and its collections per resource. */
  datatype Node = Node(slots: Slots, now: int, leases: seq<Lease>, eras: map<string, nat>, releases: seq<Ended>)

  datatype NodeOp =
    | Acquire(resource: string, owner: string)
    | Release(resource: string, owner: string)
    | Tick(ms: nat)

  function Era(n: Node, resource: string): nat {
    if resource in n.eras then n.eras[resource] else 0
  }

  /** The node after the collection of an acquire; each collected slot starts a new era. */
  function Collected(n: Node): Node {
    var g := Retained(n.slots, n.now);
    n.(slots := g, eras := n.eras + map r | r in n.slots.Keys - g.Keys :: Era(n, r) + 1)
  }

  /** The node after a grant, which the log records. */
  function Grant(c: Node, resource: string, owner: string): Node {
    var s' := Regranted(SlotOf(c.slots, resource, c.now), owner, LOCK_TTL, c.now);
    c.(slots := c.slots[resource := s'],
       leases := c.leases + [Lease(resource, owner, s'.token, s'.expiry, Era(c, resource))])
  }

  /** One acquire request for the fixed lease time, with the logs kept up to date. */
  function AcquireStep(n: Node, resource: string, owner: string): (r: (Node, Option<nat>))
    ensures (r.0.slots, r.1) == Acquired(n.slots, resource, owner, LOCK_TTL, n.now)
    ensures r.0.now == n.now && r.0.releases == n.releases
    ensures r.0.leases == if r.1.None? then n.leases
                          else n.leases + [Lease(resource, owner, r.1.value, n.now + LOCK_TTL, Era(r.0, resource))]
  {
    var c := Collected(n);
    if HeldByOther(SlotOf(c.slots, resource, c.now), owner, c.now) then (c, None)
    else (Grant(c, resource, owner), Some(Regranted(SlotOf(c.slots, resource, c.now), owner, LOCK_TTL, c.now).token))
  }

  function NodeStep(n: Node, op: NodeOp): Node {
    match op
    case Acquire(r, o) => AcquireStep(n, r, o).0
    case Release(r, o) =>
      n.(slots := Released(n.slots, r, o),
         releases := if r in n.slots && n.slots[r].owner == o then n.releases + [Ended(r, o, |n.leases|)] else n.releases)
    case Tick(ms) => n.(now := n.now + ms)
  }

  /** Owner ids are generated, hence never empty. */
  predicate LegalOp(op: NodeOp) {
    op.Acquire? ==> op.owner != ""
  }

  function RunNode(n: Node, ops: seq<NodeOp>): Node
    decreases |ops|
  {
    if ops == [] then n else RunNode(NodeStep(n, ops[0]), ops[1..])
  }

  function FreshNode(now: int): Node {
    Node(map[], now, [], map[], [])
  }

  /** The slot still remembers the lease: at least its token, at least its end, and no other holder under the same token. */
  predicate Remembered(n: Node, l: Lease) {
    && l.resource in n.slots
    && var s := n.slots[l.resource];
    && l.token <= s.token && l.expiry <= s.expiry
    && (l.token == s.token ==> s.owner == "" || s.owner == l.owner)
  }

  /** Two leases of one resource in log order. */
  predicate Ordered(a: Lease, b: Lease) {
    && a.era <= b.era
    && (a.era == b.era ==> a.token <= b.token && (a.token == b.token ==> a.owner == b.owner))
  }

  /** The lease a slot got its token from. */
  predicate Backs(n: Node, resource: string, l: Lease) {
    l.resource == resource && l.era == Era(n, resource) && resource in n.slots && l.token == n.slots[resource].token
  }

  ghost predicate Backed(n: Node, resource: string) {
    exists l :: l in n.leases && Backs(n, resource, l)
  }

  predicate LeaseSound(n: Node, l: Lease) {
    && l.owner != "" && l.expiry <= n.now + LOCK_TTL && l.era <= Era(n, l.resource)
    && (l.era == Era(n, l.resource) ==> Remembered(n, l))
    && (l.era < Era(n, l.resource) ==> l.expiry + LOCK_TTL * 10 <= n.now)
  }

  ghost predicate LogOrdered(leases: seq<Lease>) {
    forall i, j :: 0 <= i < j < |leases| && leases[i].resource == leases[j].resource ==> Ordered(leases[i], leases[j])
  }

  /** What every step keeps. */
  ghost predicate Sound(n: Node) {
    && (forall l :: l in n.leases ==> LeaseSound(n, l))
    && LogOrdered(n.leases)
    && (forall r :: r in n.slots ==> Backed(n, r))
  }

  lemma CollectedEra(n: Node, resource: string)
    ensures Era(Collected(n), resource) ==
              if resource in n.slots && resource !in Collected(n).slots then Era(n, resource) + 1 else Era(n, resource)
  {
  }

  lemma CollectedSound(n: Node)
    requires Sound(n)
    ensures Sound(Collected(n))
  {
    var c := Collected(n);
    forall l | l in n.leases ensures LeaseSound(c, l) {
      CollectedEra(n, l.resource);
      assert LeaseSound(n, l);
    }
    forall r | r in c.slots ensures Backed(c, r) {
      CollectedEra(n, r);
      assert Backed(n, r);
      var l :| l in n.leases && Backs(n, r, l);
      assert Backs(c, r, l);
    }
  }

  /** A grant on top of a sound collected node. */
  lemma GrantSound(c: Node, resource: string, owner: string)
    requires Sound(c) && owner != ""
    requires !HeldByOther(SlotOf(c.slots, resource, c.now), owner, c.now)
    ensures Sound(Grant(c, resource, owner))
  {
    var n' := Grant(c, resource, owner);
    var lease := n'.leases[|c.leases|];
    forall l | l in c.leases ensures LeaseSound(n', l) && (l.resource == resource ==> Ordered(l, lease)) {
      assert LeaseSound(c, l);
    }
    GrantOrdered(c.leases, lease);
    assert Backs(n', resource, lease) && lease in n'.leases;
    forall r | r in n'.slots && r != resource ensures Backed(n', r) {
      assert Backed(c, r);
      var l :| l in c.leases && Backs(c, r, l);
      assert l in n'.leases && Backs(n', r, l);
    }
  }

  lemma GrantOrdered(leases: seq<Lease>, lease: Lease)
    requires LogOrdered(leases)
    requires forall l :: l in leases && l.resource == lease.resource ==> Ordered(l, lease)
    ensures LogOrdered(leases + [lease])
  {
  }

  lemma AcquireSound(n: Node, resource: string, owner: string)
    requires Sound(n) && owner != ""
    ensures Sound(AcquireStep(n, resource, owner).0)
  {
    CollectedSound(n);
    var c := Collected(n);
    if !HeldByOther(SlotOf(c.slots, resource, c.now), owner, c.now) {
      GrantSound(c, resource, owner);
    }
  }

  /** A step that grants nothing and collects nothing. */
  lemma QuietSound(n: Node, n': Node)
    requires Sound(n)
    requires n'.leases == n.leases && n'.eras == n.eras && n'.slots.Keys == n.slots.Keys && n.now <= n'.now
    requires forall r :: r in n.slots ==>
               n'.slots[r] == n.slots[r] || n'.slots[r] == n.slots[r].(owner := "")
    ensures Sound(n')
  {
    forall l | l in n.leases ensures LeaseSound(n', l) {
      assert LeaseSound(n, l);
    }
    forall r | r in n'.slots ensures Backed(n', r) {
      assert Backed(n, r);
      var l :| l in n.leases && Backs(n, r, l);
      assert Backs(n', r, l);
    }
  }

  lemma NodeStepSound(n: Node, op: NodeOp)
    requires Sound(n) && LegalOp(op)
    ensures Sound(NodeStep(n, op))
  {
    match op {
      case Acquire(r, o) => AcquireSound(n, r, o);
      case Release(r, o) => QuietSound(n, NodeStep(n, op));
      case Tick(_) => QuietSound(n, NodeStep(n, op));
    }
  }

  /** The log only grows. */
  lemma StepGrowsLog(n: Node, op: NodeOp)
    ensures n.leases <= NodeStep(n, op).leases
  {
  }

  lemma {:induction false} RunSound(n: Node, ops: seq<NodeOp>)
    requires Sound(n) && forall op :: op in ops ==> LegalOp(op)
    ensures Sound(RunNode(n, ops))
    decreases |ops|
  {
    if ops != [] {
      NodeStepSound(n, ops[0]);
      assert forall op :: op in ops[1..] ==> op in ops;
      RunSound(NodeStep(n, ops[0]), ops[1..]);
    }
  }

  /** Lease `i` was superseded: the resource was later granted to someone else, or again under another token. */
  predicate Superseded(n: Node, i: nat) {
    i < |n.leases| &&
    exists j :: i < j < |n.leases| && n.leases[j].resource == n.leases[i].resource
                && (n.leases[j].owner != n.leases[i].owner || n.leases[j].token != n.leases[i].token)
  }

  /** A superseded token that is accepted was collected, ten lease times after its lease ended. */
  lemma SupersededFenced(n: Node, i: nat)
    requires Sound(n) && Superseded(n, i)
    ensures FenceOk(n.slots, n.leases[i].resource, n.leases[i].token) ==>
              && n.leases[i].era < Era(n, n.leases[i].resource)
              && n.leases[i].expiry + LOCK_TTL * 10 <= n.now
  {
    var a := n.leases[i];
    var j :| i < j < |n.leases| && n.leases[j].resource == a.resource
             && (n.leases[j].owner != a.owner || n.leases[j].token != a.token);
    var b := n.leases[j];
    assert Ordered(a, b);
    assert LeaseSound(n, a) && LeaseSound(n, b);
  }

  /** While the slot is not collected, a holder's writes are accepted if and only if it was not superseded. */
  lemma AcceptedIffCurrent(n: Node, i: nat)
    requires Sound(n) && i < |n.leases| && n.leases[i].era == Era(n, n.leases[i].resource)
    ensures FenceOk(n.slots, n.leases[i].resource, n.leases[i].token) <==> !Superseded(n, i)
  {
    var a := n.leases[i];
    assert LeaseSound(n, a);
    if Superseded(n, i) {
      SupersededFenced(n, i);
    } else {
      assert Backed(n, a.resource);
      var l :| l in n.leases && Backs(n, a.resource, l);
      var k :| 0 <= k < |n.leases| && n.leases[k] == l;
      if k < i { assert Ordered(n.leases[k], a); }
    }
  }

  /**
   * Fencing across slot collection, over every interleaving of acquires, releases,
   * refreshes and clock steps: while the slot of a lease is not collected, its
   * holder's writes are accepted exactly until it is superseded; a superseded holder
   * whose write is accepted again has waited ten lease times since its lease ended.
   */
  lemma FencingAcrossCollection(start: int, ops: seq<NodeOp>, i: nat)
    requires forall op :: op in ops ==> LegalOp(op)
    requires i < |RunNode(FreshNode(start), ops).leases|
    ensures var n := RunNode(FreshNode(start), ops);
            var l := n.leases[i];
            && (l.era == Era(n, l.resource) ==> (FenceOk(n.slots, l.resource, l.token) <==> !Superseded(n, i)))
            && (Superseded(n, i) && FenceOk(n.slots, l.resource, l.token) ==>
                  l.era < Era(n, l.resource) && l.expiry + LOCK_TTL * 10 <= n.now)
  {
    RunSound(FreshNode(start), ops);
    var n := RunNode(FreshNode(start), ops);
    if Superseded(n, i) { SupersededFenced(n, i); }
    if n.leases[i].era == Era(n, n.leases[i].resource) { AcceptedIffCurrent(n, i); }
  }

  // ---------------------------------------------------------------------------
  // One holder at a time
  // ---------------------------------------------------------------------------

  predicate EndsLease(e: Ended, l: Lease, i: nat, j: nat) {
    e.resource == l.resource && e.owner == l.owner && i < e.after <= j
  }

  /** The holder of lease `i` released the resource behind it and before lease `j`. */
  ghost predicate ReleasedBetween(n: Node, i: nat, j: nat)
    requires i < |n.leases|
  {
    exists e :: e in n.releases && EndsLease(e, n.leases[i], i, j)
  }

  /** When a lease was granted: all run for the same time. */
  function GrantedAt(l: Lease): int {
    l.expiry - LOCK_TTL
  }

  /** Of two leases of one resource with different owners the later was granted no earlier than the end of the earlier, or its release. */
  ghost predicate InTurn(n: Node) {
    forall i, j :: 0 <= i < j < |n.leases| && n.leases[i].resource == n.leases[j].resource && n.leases[i].owner != n.leases[j].owner ==>
      GrantedAt(n.leases[j]) >= n.leases[i].expiry || ReleasedBetween(n, i, j)
  }

  /** A lease was released, or has ended, or its owner has the slot. */
  ghost predicate Standing(n: Node, i: nat)
    requires i < |n.leases|
  {
    var l := n.leases[i];
    || ReleasedBetween(n, i, |n.leases|)
    || l.expiry <= n.now
    || (l.resource in n.slots && n.slots[l.resource].owner == l.owner && n.slots[l.resource].expiry >= l.expiry)
  }

  ghost predicate Exclusive(n: Node) {
    InTurn(n) && forall i: nat :: i < |n.leases| ==> Standing(n, i)
  }

  /** An unexpired lease of the owner in the log that was not released since. */
  ghost predicate Holding(n: Node, resource: string, owner: string) {
    exists i: nat :: i < |n.leases| && HoldsBy(n, resource, owner, i)
  }

  ghost predicate HoldsBy(n: Node, resource: string, owner: string, i: nat)
    requires i < |n.leases|
  {
    n.leases[i].resource == resource && n.leases[i].owner == owner && n.leases[i].expiry > n.now && !ReleasedBetween(n, i, |n.leases|)
  }

  /** On one node at most one owner does. */
  lemma HoldingIsUnique(n: Node, resource: string, a: string, b: string)
    requires Exclusive(n) && Holding(n, resource, a) && Holding(n, resource, b)
    ensures a == b
  {
    var i: nat :| i < |n.leases| && HoldsBy(n, resource, a, i);
    var j: nat :| j < |n.leases| && HoldsBy(n, resource, b, j);
    assert Standing(n, i) && Standing(n, j);
  }

  lemma SameReleases(n: Node, n': Node, i: nat, j: nat)
    requires i < |n.leases| && n.leases <= n'.leases && n.releases <= n'.releases && ReleasedBetween(n, i, j)
    ensures ReleasedBetween(n', i, j) && forall k :: k >= j ==> ReleasedBetween(n', i, k)
  {
    var e :| e in n.releases && EndsLease(e, n.leases[i], i, j);
    assert e in n'.releases && n'.leases[i] == n.leases[i];
    forall k: nat | k >= j ensures ReleasedBetween(n', i, k) {
      assert EndsLease(e, n'.leases[i], i, k);
    }
  }

  lemma GrantExclusive(n: Node, resource: string, owner: string)
    requires Sound(n) && Exclusive(n) && owner != ""
    ensures Exclusive(AcquireStep(n, resource, owner).0)
  {
    var (n', token) := AcquireStep(n, resource, owner);
    AcquiredMeaning(n.slots, resource, owner, LOCK_TTL, n.now);
    hide Acquired, AcquireStep, Retained, Collected, Grant;
    forall i: nat | i < |n.leases|
      ensures Standing(n', i)
      ensures token.Some? && n.leases[i].resource == resource && n.leases[i].owner != owner ==>
                n.leases[i].expiry <= n.now || ReleasedBetween(n', i, |n.leases|)
    {
      assert Standing(n, i) && LeaseSound(n, n.leases[i]);
      if ReleasedBetween(n, i, |n.leases|) { SameReleases(n, n', i, |n.leases|); }
    }
    forall i: nat, j: nat | i < j < |n'.leases| && n'.leases[i].resource == n'.leases[j].resource && n'.leases[i].owner != n'.leases[j].owner
      ensures GrantedAt(n'.leases[j]) >= n'.leases[i].expiry || ReleasedBetween(n', i, j)
    {
      if j < |n.leases| && ReleasedBetween(n, i, j) { SameReleases(n, n', i, j); }
    }
  }

  lemma ReleaseExclusive(n: Node, resource: string, owner: string)
    requires Sound(n) && Exclusive(n)
    ensures Exclusive(NodeStep(n, Release(resource, owner)))
  {
    var n' := NodeStep(n, Release(resource, owner));
    forall i: nat | i < |n.leases| ensures Standing(n', i) {
      assert Standing(n, i);
      if ReleasedBetween(n, i, |n.leases|) { SameReleases(n, n', i, |n.leases|); }
      if n'.releases != n.releases && n.leases[i].resource == resource && n.leases[i].owner == owner {
        var e := Ended(resource, owner, |n.leases|);
        assert e in n'.releases && EndsLease(e, n'.leases[i], i, |n'.leases|);
      }
    }
    forall i: nat, j: nat | i < j < |n.leases| && ReleasedBetween(n, i, j) ensures ReleasedBetween(n', i, j) {
      SameReleases(n, n', i, j);
    }
  }

  lemma TickExclusive(n: Node, ms: nat)
    requires Exclusive(n)
    ensures Exclusive(NodeStep(n, Tick(ms)))
  {
    var n' := NodeStep(n, Tick(ms));
    forall i: nat, j: nat | i < |n.leases| && ReleasedBetween(n, i, j) ensures ReleasedBetween(n', i, j) {
      SameReleases(n, n', i, j);
    }
    forall i: nat | i < |n.leases| ensures Standing(n', i) {
      assert Standing(n, i);
    }
  }

  lemma NodeStepExclusive(n: Node, op: NodeOp)
    requires Sound(n) && Exclusive(n) && LegalOp(op)
    ensures Exclusive(NodeStep(n, op))
  {
    match op {
      case Acquire(r, o) => GrantExclusive(n, r, o);
      case Release(r, o) => ReleaseExclusive(n, r, o);
      case Tick(ms) => TickExclusive(n, ms);
    }
  }

  /**
   * A lease is exclusive, in every run of a node: of two leases of one resource with
   * different owners, collections in between or not, the later is granted no earlier
   * than the end of the earlier, unless its owner released it in between; so no two
   * owners hold unexpired, unreleased leases at any time.
   */
  lemma {:induction false} LeasesTakeTurns(start: int, ops: seq<NodeOp>, resource: string, a: string, b: string)
    requires forall op :: op in ops ==> LegalOp(op)
    ensures var n := RunNode(FreshNode(start), ops);
            && InTurn(n)
            && (Holding(n, resource, a) && Holding(n, resource, b) ==> a == b)
  {
    RunExclusive(FreshNode(start), ops);
    var n := RunNode(FreshNode(start), ops);
    if Holding(n, resource, a) && Holding(n, resource, b) { HoldingIsUnique(n, resource, a, b); }
  }

  lemma {:induction false} RunExclusive(n: Node, ops: seq<NodeOp>)
    requires Sound(n) && Exclusive(n) && forall op :: op in ops ==> LegalOp(op)
    ensures Exclusive(RunNode(n, ops))
    decreases |ops|
  {
    if ops != [] {
      NodeStepSound(n, ops[0]);
      NodeStepExclusive(n, ops[0]);
      assert forall op :: op in ops[1..] ==> op in ops;
      RunExclusive(NodeStep(n, ops[0]), ops[1..]);
    }
  }
}
