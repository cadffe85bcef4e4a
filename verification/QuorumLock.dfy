/**
 * Quorum locks over many drive nodes (src/cluster/lock.rs) and the fence token a
 * gateway attaches to its writes (src/cluster/remote.rs): many gateways and nodes,
 * any interleaving of grant requests, lost replies, releases and clock steps.
 */
module QuorumLock {
  import opened Wrappers
  import LT = LockTable

  /** A fencing token a node granted. The gateway sends the token alone; the era tells grants before and after a collection apart. */
  datatype Fence = Fence(token: nat, era: nat)

  /** One acquire call of a gateway: the locked resource, the fences collected in the current attempt, and whether it has returned. */
  datatype Holder = Holder(resource: string, tokens: map<nat, Fence>, granted: bool)

  /** Nodes by their index in the shared node list, acquire calls by their generated owner id. */
  datatype System = System(nodes: seq<LT.Node>, holders: map<string, Holder>)

  datatype Step =
    | Start(owner: string, resource: string)
    | TryAcquire(owner: string, node: nat, replied: bool)
    | Retry(owner: string)
    | Conclude(owner: string)
    | ReleaseAt(owner: string, node: nat)
    | Tick(node: nat, ms: nat)

  function Quorum(n: nat): nat {
    n / 2 + 1
  }

  /** Which steps the code can take. */
  predicate Enabled(s: System, step: Step) {
    match step
    case Start(o, _) => o != "" && o !in s.holders
    case TryAcquire(o, x, replied) => o in s.holders && x < |s.nodes| && (s.holders[o].granted ==> !replied)
    case Retry(o) => o in s.holders && !s.holders[o].granted
    case Conclude(o) => o in s.holders && !s.holders[o].granted && |s.holders[o].tokens| >= Quorum(|s.nodes|)
    case ReleaseAt(o, x) => o in s.holders && x < |s.nodes|
    case Tick(x, _) => x < |s.nodes|
  }

  function Next(s: System, step: Step): System
    requires Enabled(s, step)
  {
    match step
    case Start(o, r) => s.(holders := s.holders[o := Holder(r, map[], false)])
    case TryAcquire(o, x, replied) =>
      var h := s.holders[o];
      var (node', token) := LT.AcquireStep(s.nodes[x], h.resource, o);
      var h' := if token.Some? && replied then h.(tokens := h.tokens[x := Fence(token.value, LT.Era(node', h.resource))]) else h;
      System(s.nodes[x := node'], s.holders[o := h'])
    case Retry(o) => s.(holders := s.holders[o := s.holders[o].(tokens := map[])])
    case Conclude(o) => s.(holders := s.holders[o := s.holders[o].(granted := true)])
    case ReleaseAt(o, x) =>
      s.(nodes := s.nodes[x := LT.NodeStep(s.nodes[x], LT.Release(s.holders[o].resource, o))])
    case Tick(x, ms) => s.(nodes := s.nodes[x := LT.NodeStep(s.nodes[x], LT.NodeOp.Tick(ms))])
  }

  ghost predicate LegalRun(s: System, steps: seq<Step>)
    decreases |steps|
  {
    steps == [] || (Enabled(s, steps[0]) && LegalRun(Next(s, steps[0]), steps[1..]))
  }

  function Run(s: System, steps: seq<Step>): System
    requires LegalRun(s, steps)
    decreases |steps|
  {
    if steps == [] then s else Run(Next(s, steps[0]), steps[1..])
  }

  function Initial(clocks: seq<int>): System {
    System(seq(|clocks|, i requires 0 <= i < |clocks| => LT.FreshNode(clocks[i])), map[])
  }

  /** The token a gateway presents to a node: only if that node granted one in the winning attempt. */
  function FenceFor(h: Holder, node: nat): Option<nat> {
    if node in h.tokens then Some(h.tokens[node].token) else None
  }

  /** What becomes of a resource name in the header of a request. */
  datatype Header = NotSent | Unreadable | Read(resource: string)

  predicate Control(c: char) {
    (c as int < 32 && c != '\t') || c as int == 127
  }

  predicate Blank(c: char) {
    c == ' ' || c == '\t'
  }

  /** A field value as it is received: without blanks at either end (section 5.5 of RFC 9110). */
  function Stripped(value: string): string {
    if |value| > 0 && Blank(value[0]) then Stripped(value[1..])
    else if |value| > 0 && Blank(value[|value| - 1]) then Stripped(value[..|value| - 1])
    else value
  }

  /**
   * A name with a control character makes the request fail before it is sent; one with
   * a character outside ASCII is sent, and the node cannot read it as text.
   */
  function Presented(resource: string): Header {
    if exists i :: 0 <= i < |resource| && Control(resource[i]) then NotSent
    else if exists i :: 0 <= i < |resource| && resource[i] as int >= 128 then Unreadable
    else Read(Stripped(resource))
  }

  /** Whether a mutating request of the holder takes effect at a node. Without a token for the node it carries no fence. */
  predicate Admits(s: System, owner: string, node: nat)
    requires owner in s.holders && node < |s.nodes|
  {
    var h := s.holders[owner];
    var token := FenceFor(h, node);
    token.None? ||
    match Presented(h.resource)
    case NotSent => false
    case Unreadable => !LT.FencedOut(s.nodes[node].slots, None, token)
    case Read(resource) => !LT.FencedOut(s.nodes[node].slots, Some(resource), token)
  }

  /** The name arrives as it is, or not at all: the fence is judged by the right slot, or the write fails. */
  predicate Fenceable(resource: string) {
    Presented(resource) == NotSent || Presented(resource) == Read(resource)
  }

  /** A token in hand is backed by a lease in the log of its node. */
  ghost predicate Logged(n: LT.Node, owner: string, resource: string, f: Fence) {
    exists l :: l in n.leases && Grants(l, owner, resource, f)
  }

  predicate Grants(l: LT.Lease, owner: string, resource: string, f: Fence) {
    l.resource == resource && l.owner == owner && l.token == f.token && l.era == f.era
  }

  ghost predicate HolderSound(s: System, owner: string)
    requires owner in s.holders
  {
    var h := s.holders[owner];
    && owner != ""
    && (forall x :: x in h.tokens ==> x < |s.nodes| && Logged(s.nodes[x], owner, h.resource, h.tokens[x]))
    && (h.granted ==> |h.tokens| >= Quorum(|s.nodes|))
  }

  ghost predicate SystemSound(s: System) {
    && (forall x :: 0 <= x < |s.nodes| ==> LT.Sound(s.nodes[x]))
    && (forall o :: o in s.holders ==> HolderSound(s, o))
  }

  lemma LoggedGrows(n: LT.Node, n': LT.Node, owner: string, resource: string, f: Fence)
    requires n.leases <= n'.leases && Logged(n, owner, resource, f)
    ensures Logged(n', owner, resource, f)
  {
    var l :| l in n.leases && Grants(l, owner, resource, f);
    assert l in n'.leases;
  }

  /** One node takes a step: everybody else's tokens stay backed. */
  lemma NodeChange(s: System, x: nat, node': LT.Node)
    requires SystemSound(s) && x < |s.nodes| && LT.Sound(node') && s.nodes[x].leases <= node'.leases
    ensures SystemSound(s.(nodes := s.nodes[x := node']))
  {
    var s' := s.(nodes := s.nodes[x := node']);
    forall o | o in s.holders ensures HolderSound(s', o) {
      assert HolderSound(s, o);
      var h := s.holders[o];
      forall y | y in h.tokens ensures Logged(s'.nodes[y], o, h.resource, h.tokens[y]) {
        assert Logged(s.nodes[y], o, h.resource, h.tokens[y]);
        if y == x { LoggedGrows(s.nodes[x], node', o, h.resource, h.tokens[x]); }
      }
    }
  }

  /** One holder takes a step of its own. */
  lemma HolderChange(s: System, o: string, h': Holder)
    requires SystemSound(s) && HolderSound(s.(holders := s.holders[o := h']), o)
    ensures SystemSound(s.(holders := s.holders[o := h']))
  {
    var s' := s.(holders := s.holders[o := h']);
    forall p | p in s'.holders ensures HolderSound(s', p) {
      if p != o { assert HolderSound(s, p); }
    }
  }

  lemma TryAcquireSound(s: System, o: string, x: nat, replied: bool)
    requires SystemSound(s) && Enabled(s, TryAcquire(o, x, replied))
    ensures SystemSound(Next(s, TryAcquire(o, x, replied)))
  {
    hide LT.Sound, Logged;
    var h := s.holders[o];
    var (node', token) := LT.AcquireStep(s.nodes[x], h.resource, o);
    assert HolderSound(s, o);
    LT.AcquireSound(s.nodes[x], h.resource, o);
    var mid := s.(nodes := s.nodes[x := node']);
    NodeChange(s, x, node');
    if token.Some? && replied {
      var f := Fence(token.value, LT.Era(node', h.resource));
      NewToken(mid, o, x, f);
      assert Next(s, TryAcquire(o, x, replied)) == mid.(holders := s.holders[o := h.(tokens := h.tokens[x := f])]);
    } else {
      assert Next(s, TryAcquire(o, x, replied)).holders == s.holders;
    }
  }

  lemma NewToken(s: System, o: string, x: nat, f: Fence)
    requires SystemSound(s) && o in s.holders && !s.holders[o].granted && x < |s.nodes|
    requires s.nodes[x].leases != []
    requires Grants(s.nodes[x].leases[|s.nodes[x].leases| - 1], o, s.holders[o].resource, f)
    ensures SystemSound(s.(holders := s.holders[o := s.holders[o].(tokens := s.holders[o].tokens[x := f])]))
  {
    var h := s.holders[o];
    var h' := h.(tokens := h.tokens[x := f]);
    assert HolderSound(s, o);
    assert s.nodes[x].leases[|s.nodes[x].leases| - 1] in s.nodes[x].leases;
    assert Logged(s.nodes[x], o, h.resource, f);
    HolderChange(s, o, h');
  }

  lemma StepSound(s: System, step: Step)
    requires SystemSound(s) && Enabled(s, step)
    ensures SystemSound(Next(s, step))
  {
    match step {
      case TryAcquire(o, x, replied) => TryAcquireSound(s, o, x, replied);
      case ReleaseAt(o, x) =>
        var op := LT.Release(s.holders[o].resource, o);
        LT.NodeStepSound(s.nodes[x], op);
        LT.StepGrowsLog(s.nodes[x], op);
        NodeChange(s, x, LT.NodeStep(s.nodes[x], op));
      case Tick(x, ms) =>
        var op := LT.NodeOp.Tick(ms);
        LT.NodeStepSound(s.nodes[x], op);
        LT.StepGrowsLog(s.nodes[x], op);
        NodeChange(s, x, LT.NodeStep(s.nodes[x], op));
      case Start(o, r) => HolderChange(s, o, Holder(r, map[], false));
      case Retry(o) =>
        assert HolderSound(s, o);
        HolderChange(s, o, s.holders[o].(tokens := map[]));
      case Conclude(o) =>
        assert HolderSound(s, o);
        HolderChange(s, o, s.holders[o].(granted := true));
    }
  }

  lemma {:induction false} RunSound(s: System, steps: seq<Step>)
    requires SystemSound(s) && LegalRun(s, steps)
    ensures SystemSound(Run(s, steps)) && |Run(s, steps).nodes| == |s.nodes|
    decreases |steps|
  {
    if steps != [] {
      StepSound(s, steps[0]);
      RunSound(Next(s, steps[0]), steps[1..]);
    }
  }

  // ---------------------------------------------------------------------------
  // Quorums
  // ---------------------------------------------------------------------------

  function Below(n: nat): (r: set<nat>)
    ensures forall x: nat :: x in r <==> x < n
  {
    if n == 0 then {} else Below(n - 1) + {n - 1}
  }

  lemma {:induction false} BelowSize(n: nat)
    ensures |Below(n)| == n
  {
    if n > 0 {
      BelowSize(n - 1);
      assert Below(n) == Below(n - 1) + {n - 1};
    }
  }

  lemma SubsetSize(a: set<nat>, b: set<nat>)
    requires a <= b
    ensures |a| <= |b|
  {
    assert b == a + (b - a);
  }

  /** Two quorums of the same node list share a node. */
  lemma QuorumsMeet(n: nat, a: set<nat>, b: set<nat>) returns (x: nat)
    requires forall y :: y in a || y in b ==> y < n
    requires |a| >= Quorum(n) && |b| >= Quorum(n)
    ensures x in a && x in b
  {
    SharedSize(n, a, b);
    assert |a * b| > 0;
    x :| x in a * b;
  }

  /** Two sets of nodes share at least what they exceed the node count by. */
  lemma SharedSize(n: nat, a: set<nat>, b: set<nat>)
    requires forall y :: y in a || y in b ==> y < n
    ensures |a * b| >= |a| + |b| - n
  {
    SubsetSize(a + b, Below(n));
    BelowSize(n);
    assert |a| + |b| == |a + b| + |a * b|;
  }

  lemma GrantedTokens(s: System, owner: string)
    requires SystemSound(s) && owner in s.holders && s.holders[owner].granted
    ensures |s.holders[owner].tokens| >= Quorum(|s.nodes|) && |s.holders[owner].tokens.Keys| == |s.holders[owner].tokens|
    ensures forall x :: x in s.holders[owner].tokens.Keys ==> x < |s.nodes|
  {
    hide LT.Sound, Logged;
    assert HolderSound(s, owner);
  }

  ghost predicate SystemExclusive(s: System) {
    SystemSound(s) && forall x :: 0 <= x < |s.nodes| ==> LT.Exclusive(s.nodes[x])
  }

  /** What a step does to the nodes: nothing, or one step of one node. */
  lemma NodesStep(s: System, step: Step) returns (x: nat, op: LT.NodeOp)
    requires SystemSound(s) && Enabled(s, step)
    ensures LT.LegalOp(op)
    ensures var s' := Next(s, step);
            |s'.nodes| == |s.nodes| && forall y :: 0 <= y < |s.nodes| ==>
              s'.nodes[y] == s.nodes[y] || (y == x && s'.nodes[y] == LT.NodeStep(s.nodes[y], op))
  {
    hide LT.Sound, Logged;
    x, op := 0, LT.NodeOp.Tick(0);
    match step {
      case TryAcquire(o, y, _) =>
        assert HolderSound(s, o);
        x, op := y, LT.NodeOp.Acquire(s.holders[o].resource, o);
      case ReleaseAt(o, y) => x, op := y, LT.NodeOp.Release(s.holders[o].resource, o);
      case Tick(y, ms) => x, op := y, LT.NodeOp.Tick(ms);
      case Start(_, _) =>
      case Retry(_) =>
      case Conclude(_) =>
    }
  }

  lemma {:induction false} RunExclusive(s: System, steps: seq<Step>)
    requires SystemExclusive(s) && LegalRun(s, steps)
    ensures SystemExclusive(Run(s, steps))
    decreases |steps|
  {
    hide LT.Exclusive, LT.Sound, LT.NodeStep, SystemSound, Next, Enabled;
    if steps != [] {
      StepSound(s, steps[0]);
      var x, op := NodesStep(s, steps[0]);
      var s' := Next(s, steps[0]);
      forall y | 0 <= y < |s'.nodes| ensures LT.Exclusive(s'.nodes[y]) {
        if y == x { NodeSound(s, y); LT.NodeStepExclusive(s.nodes[y], op); }
      }
      RunExclusive(s', steps[1..]);
    }
  }

  lemma NodeSound(s: System, x: nat)
    requires SystemSound(s) && x < |s.nodes|
    ensures LT.Sound(s.nodes[x])
  {
  }

  /** The nodes whose log has an unexpired lease of the call that was not released since. */
  ghost function HeldBy(s: System, owner: string): set<nat>
    requires owner in s.holders
  {
    set x | 0 <= x < |s.nodes| && LT.Holding(s.nodes[x], s.holders[owner].resource, owner)
  }

  /**
   * In every run, two calls for one resource never hold an unexpired, unreleased lease
   * at the same node; so they never both hold leases at a quorum of the nodes, and two
   * calls that were both granted the resource do not both hold all their tokens' leases.
   */
  lemma QuorumExclusion(clocks: seq<int>, steps: seq<Step>, a: string, b: string)
    requires LegalRun(Initial(clocks), steps)
    requires var s := Run(Initial(clocks), steps);
             a != b && a in s.holders && b in s.holders && s.holders[a].resource == s.holders[b].resource
    ensures var s := Run(Initial(clocks), steps);
            && HeldBy(s, a) !! HeldBy(s, b)
            && !(|HeldBy(s, a)| >= Quorum(|s.nodes|) && |HeldBy(s, b)| >= Quorum(|s.nodes|))
            && (s.holders[a].granted && s.holders[b].granted ==>
                  !(s.holders[a].tokens.Keys <= HeldBy(s, a) && s.holders[b].tokens.Keys <= HeldBy(s, b)))
  {
    var s := Run(Initial(clocks), steps);
    InitialExclusive(clocks);
    RunExclusive(Initial(clocks), steps);
    hide LT.Exclusive, LT.Holding, Run, LegalRun, SystemSound, Initial;
    forall x | x in HeldBy(s, a) && x in HeldBy(s, b) ensures false {
      LT.HoldingIsUnique(s.nodes[x], s.holders[a].resource, a, b);
    }
    if |HeldBy(s, a)| >= Quorum(|s.nodes|) && |HeldBy(s, b)| >= Quorum(|s.nodes|) {
      var x := QuorumsMeet(|s.nodes|, HeldBy(s, a), HeldBy(s, b));
    }
    if s.holders[a].granted && s.holders[b].granted {
      GrantedTokens(s, a);
      GrantedTokens(s, b);
      var x := QuorumsMeet(|s.nodes|, s.holders[a].tokens.Keys, s.holders[b].tokens.Keys);
    }
  }

  lemma InitialExclusive(clocks: seq<int>)
    ensures SystemExclusive(Initial(clocks))
  {
  }

  /** The fence comes from a lease that was superseded at this node. */
  ghost predicate Outrun(n: LT.Node, owner: string, resource: string, f: Fence) {
    exists i: nat :: OutrunBy(n, owner, resource, f, i)
  }

  predicate OutrunBy(n: LT.Node, owner: string, resource: string, f: Fence, i: nat) {
    i < |n.leases| && Grants(n.leases[i], owner, resource, f) && LT.Superseded(n, i)
  }

  /** The slot was collected after the fence was granted, ten lease times after the end of its lease. */
  ghost predicate CollectedSince(n: LT.Node, owner: string, resource: string, f: Fence) {
    && f.era < LT.Era(n, resource)
    && exists l :: l in n.leases && Grants(l, owner, resource, f) && l.expiry + LT.LOCK_TTL * 10 <= n.now
  }

  lemma OutrunFenced(n: LT.Node, owner: string, resource: string, f: Fence)
    requires LT.Sound(n) && Outrun(n, owner, resource, f) && LT.FenceOk(n.slots, resource, f.token)
    ensures CollectedSince(n, owner, resource, f)
  {
    var i: nat :| OutrunBy(n, owner, resource, f, i);
    LT.SupersededFenced(n, i);
    assert n.leases[i] in n.leases;
  }

  /** A granted holder has lost the resource at node `x`. */
  ghost predicate LostAt(s: System, owner: string, x: nat) {
    && owner in s.holders && x < |s.nodes|
    && var h := s.holders[owner];
    && h.granted && x in h.tokens
    && Outrun(s.nodes[x], owner, h.resource, h.tokens[x])
  }

  /**
   * What a node does with the writes of a holder that lost the resource there. A name
   * that is presented as it is gets through only if its slot was collected; one that
   * the node cannot read always; one that arrives as another name is judged by the
   * other name's slot.
   */
  ghost predicate LostOutcome(s: System, owner: string, x: nat)
    requires owner in s.holders && x < |s.nodes| && x in s.holders[owner].tokens
  {
    var h, n := s.holders[owner], s.nodes[x];
    match Presented(h.resource)
    case NotSent => !Admits(s, owner, x)
    case Unreadable => Admits(s, owner, x)
    case Read(r) =>
      if r == h.resource then Admits(s, owner, x) ==> CollectedSince(n, owner, r, h.tokens[x])
      else Admits(s, owner, x) <==> LT.FenceOk(n.slots, r, h.tokens[x].token)
  }

  lemma LostIsFenced(s: System, owner: string, x: nat)
    requires SystemSound(s) && LostAt(s, owner, x)
    ensures LostOutcome(s, owner, x)
  {
    hide LT.Sound, Outrun, CollectedSince, Presented;
    var h := s.holders[owner];
    if Presented(h.resource) == Read(h.resource) && Admits(s, owner, x) {
      OutrunFenced(s.nodes[x], owner, h.resource, h.tokens[x]);
    }
  }

  /** Of two grants of one resource at one node, the earlier one is superseded. */
  lemma OneIsOutrun(n: LT.Node, resource: string, a: string, fa: Fence, b: string, fb: Fence)
    requires a != b && Logged(n, a, resource, fa) && Logged(n, b, resource, fb)
    ensures Outrun(n, a, resource, fa) || Outrun(n, b, resource, fb)
  {
    var la :| la in n.leases && Grants(la, a, resource, fa);
    var lb :| lb in n.leases && Grants(lb, b, resource, fb);
    var i :| 0 <= i < |n.leases| && n.leases[i] == la;
    var j :| 0 <= j < |n.leases| && n.leases[j] == lb;
    if i < j {
      assert OutrunBy(n, a, resource, fa, i);
    } else {
      assert OutrunBy(n, b, resource, fb, j);
    }
  }

  /** Two calls that were both granted the same resource. */
  ghost predicate BothGranted(s: System, a: string, b: string) {
    && a != b && a in s.holders && b in s.holders
    && s.holders[a].granted && s.holders[b].granted && s.holders[a].resource == s.holders[b].resource
  }

  lemma HeldIsLogged(s: System, o: string, x: nat)
    requires SystemSound(s) && o in s.holders && x in s.holders[o].tokens
    ensures x < |s.nodes| && LT.Sound(s.nodes[x]) && Logged(s.nodes[x], o, s.holders[o].resource, s.holders[o].tokens[x])
  {
    hide LT.Sound, Logged;
    assert HolderSound(s, o);
  }

  /** In every run, two calls that were both granted the same resource share a node where one of them has lost it. */
  lemma TwoGrantsMeet(clocks: seq<int>, steps: seq<Step>, a: string, b: string) returns (x: nat, stale: string)
    requires LegalRun(Initial(clocks), steps)
    requires BothGranted(Run(Initial(clocks), steps), a, b)
    ensures var s := Run(Initial(clocks), steps);
            && (stale == a || stale == b) && LostAt(s, stale, x)
            && x in s.holders[a].tokens && x in s.holders[b].tokens
            && LostOutcome(s, stale, x)
            && (Fenceable(s.holders[a].resource) && Admits(s, stale, x) ==>
                  s.holders[stale].tokens[x].era < LT.Era(s.nodes[x], s.holders[stale].resource))
  {
    var s := Run(Initial(clocks), steps);
    InitialSound(clocks);
    RunSound(Initial(clocks), steps);
    hide SystemSound, Run, LegalRun, Initial, Presented, Outrun;
    GrantedTokens(s, a);
    GrantedTokens(s, b);
    var ha, hb := s.holders[a], s.holders[b];
    x := QuorumsMeet(|s.nodes|, ha.tokens.Keys, hb.tokens.Keys);
    HeldIsLogged(s, a, x);
    HeldIsLogged(s, b, x);
    OneIsOutrun(s.nodes[x], ha.resource, a, ha.tokens[x], b, hb.tokens[x]);
    stale := if Outrun(s.nodes[x], a, ha.resource, ha.tokens[x]) then a else b;
    LostIsFenced(s, stale, x);
  }

  lemma InitialSound(clocks: seq<int>)
    ensures SystemSound(Initial(clocks))
  {
  }

  lemma OutrunGrows(n: LT.Node, n': LT.Node, owner: string, resource: string, f: Fence)
    requires n.leases <= n'.leases && Outrun(n, owner, resource, f)
    ensures Outrun(n', owner, resource, f)
  {
    var i: nat :| OutrunBy(n, owner, resource, f, i);
    var j: nat :| i < j < |n.leases| && n.leases[j].resource == n.leases[i].resource
             && (n.leases[j].owner != n.leases[i].owner || n.leases[j].token != n.leases[i].token);
    assert n'.leases[i] == n.leases[i] && n'.leases[j] == n.leases[j];
    assert OutrunBy(n', owner, resource, f, i);
  }

  /** No step changes a granted holder or takes a lease from the log. */
  lemma StepGrows(s: System, step: Step, owner: string, x: nat)
    requires Enabled(s, step) && owner in s.holders && s.holders[owner].granted && x < |s.nodes|
    ensures var s' := Next(s, step);
            |s'.nodes| == |s.nodes| && s.nodes[x].leases <= s'.nodes[x].leases && owner in s'.holders && s'.holders[owner] == s.holders[owner]
  {
  }

  lemma StepKeepsLost(s: System, step: Step, owner: string, x: nat)
    requires Enabled(s, step) && LostAt(s, owner, x)
    ensures LostAt(Next(s, step), owner, x) && Next(s, step).holders[owner] == s.holders[owner]
  {
    hide Enabled, Next, Outrun;
    StepGrows(s, step, owner, x);
    OutrunGrows(s.nodes[x], Next(s, step).nodes[x], owner, s.holders[owner].resource, s.holders[owner].tokens[x]);
  }

  /**
   * From the moment a granted holder has lost the resource at a node, whatever
   * happens next, that node refuses all its writes, unless the slot was idle for ten
   * lease times after its lease and was collected, or the name of the resource does
   * not reach the node as it is.
   */
  lemma {:induction false} LostForever(s: System, steps: seq<Step>, owner: string, x: nat)
    requires SystemSound(s) && LostAt(s, owner, x) && LegalRun(s, steps)
    ensures var s' := Run(s, steps);
            LostAt(s', owner, x) && LostOutcome(s', owner, x)
    decreases |steps|
  {
    if steps == [] {
      LostIsFenced(s, owner, x);
    } else {
      StepSound(s, steps[0]);
      StepKeepsLost(s, steps[0], owner, x);
      LostForever(Next(s, steps[0]), steps[1..], owner, x);
    }
  }

  // ---------------------------------------------------------------------------
  // How far a stale holder still reaches
  // ---------------------------------------------------------------------------

  /** Since the slot was last collected, someone was granted a higher token. */
  ghost predicate Overtaken(n: LT.Node, resource: string, token: nat) {
    exists l :: l in n.leases && l.resource == resource && l.era == LT.Era(n, resource) && l.token > token
  }

  lemma FencedIff(n: LT.Node, resource: string, token: nat)
    requires LT.Sound(n)
    ensures !LT.FenceOk(n.slots, resource, token) <==> Overtaken(n, resource, token)
  {
    if !LT.FenceOk(n.slots, resource, token) {
      assert LT.Backed(n, resource);
      var l :| l in n.leases && LT.Backs(n, resource, l);
      assert l.token > token;
    }
    if Overtaken(n, resource, token) {
      var l :| l in n.leases && l.resource == resource && l.era == LT.Era(n, resource) && l.token > token;
      assert LT.LeaseSound(n, l);
    }
  }

  /**
   * Exactly when a holder's writes do not take effect at a node: it holds a token of the
   * node, and the name cannot be sent, or the node has, for the name it reads, granted
   * a higher token since its last collection. Everywhere else they pass.
   */
  lemma RefusedIff(s: System, owner: string, x: nat)
    requires SystemSound(s) && owner in s.holders && x < |s.nodes|
    ensures var h := s.holders[owner];
            !Admits(s, owner, x) <==>
              x in h.tokens && match Presented(h.resource)
                               case NotSent => true
                               case Unreadable => false
                               case Read(r) => Overtaken(s.nodes[x], r, h.tokens[x].token)
  {
    hide LT.Sound, Overtaken;
    var h := s.holders[owner];
    if x in h.tokens && Presented(h.resource).Read? {
      FencedIff(s.nodes[x], Presented(h.resource).resource, h.tokens[x].token);
    }
  }

  /** The nodes that let a mutating request of the holder through. */
  function Admitting(s: System, owner: string): set<nat>
    requires owner in s.holders
  {
    set x | 0 <= x < |s.nodes| && Admits(s, owner, x)
  }

  function Refusing(s: System, owner: string): set<nat>
    requires owner in s.holders
  {
    set x | 0 <= x < |s.nodes| && !Admits(s, owner, x)
  }

  lemma AdmittingSize(s: System, owner: string)
    requires owner in s.holders
    ensures |Admitting(s, owner)| + |Refusing(s, owner)| == |s.nodes|
  {
    hide Admits;
    BelowSize(|s.nodes|);
    assert Below(|s.nodes|) == Admitting(s, owner) + Refusing(s, owner);
    assert Admitting(s, owner) !! Refusing(s, owner);
  }

  /** No slot of the resource was collected at the nodes both calls hold tokens of, since they got them. */
  ghost predicate Uncollected(s: System, a: string, b: string)
    requires a in s.holders && b in s.holders
  {
    forall x :: x in s.holders[a].tokens && x in s.holders[b].tokens && x < |s.nodes| ==>
      && s.holders[a].tokens[x].era == LT.Era(s.nodes[x], s.holders[a].resource)
      && s.holders[b].tokens[x].era == LT.Era(s.nodes[x], s.holders[b].resource)
  }

  /** A node of both tokens refuses one of the two, if the name reaches it as it is. */
  lemma SharedRefusesOne(s: System, a: string, b: string, x: nat)
    requires SystemSound(s) && BothGranted(s, a, b) && Uncollected(s, a, b) && Fenceable(s.holders[a].resource)
    requires x in s.holders[a].tokens && x in s.holders[b].tokens
    ensures x < |s.nodes| && (x in Refusing(s, a) || x in Refusing(s, b))
  {
    hide HolderSound, SystemSound, LT.Sound, Logged, Outrun, Admits, Presented;
    HeldIsLogged(s, a, x);
    HeldIsLogged(s, b, x);
    var ha, hb := s.holders[a], s.holders[b];
    OneIsOutrun(s.nodes[x], ha.resource, a, ha.tokens[x], b, hb.tokens[x]);
    if Outrun(s.nodes[x], a, ha.resource, ha.tokens[x]) { LostIsFenced(s, a, x); } else { LostIsFenced(s, b, x); }
  }

  lemma SharedRefuse(s: System, a: string, b: string)
    requires SystemSound(s) && BothGranted(s, a, b) && Uncollected(s, a, b) && Fenceable(s.holders[a].resource)
    ensures |s.holders[a].tokens.Keys * s.holders[b].tokens.Keys| <= |Refusing(s, a)| + |Refusing(s, b)|
  {
    hide SystemSound, Uncollected, Fenceable, Refusing;
    var shared := s.holders[a].tokens.Keys * s.holders[b].tokens.Keys;
    forall x | x in shared ensures x in Refusing(s, a) + Refusing(s, b) {
      SharedRefusesOne(s, a, b, x);
    }
    SubsetSize(shared, Refusing(s, a) + Refusing(s, b));
    assert |Refusing(s, a) + Refusing(s, b)| <= |Refusing(s, a)| + |Refusing(s, b)|;
  }

  lemma UnreadableReaches(s: System, owner: string)
    requires owner in s.holders && Presented(s.holders[owner].resource) == Unreadable
    ensures |Refusing(s, owner)| == 0
  {
    hide Presented;
    assert Refusing(s, owner) == {};
  }

  lemma ReachOf(s: System, a: string, b: string)
    requires SystemSound(s) && BothGranted(s, a, b) && Uncollected(s, a, b)
    ensures var held := |s.holders[a].tokens| + |s.holders[b].tokens|;
            && held - |s.nodes| >= 1
            && (Fenceable(s.holders[a].resource) ==> |Refusing(s, a)| + |Refusing(s, b)| >= held - |s.nodes|)
            && (Presented(s.holders[a].resource) == Unreadable ==> |Refusing(s, a)| == |Refusing(s, b)| == 0)
  {
    hide SystemSound, Uncollected, Fenceable, Refusing, Presented;
    GrantedTokens(s, a);
    GrantedTokens(s, b);
    SharedSize(|s.nodes|, s.holders[a].tokens.Keys, s.holders[b].tokens.Keys);
    if Fenceable(s.holders[a].resource) { SharedRefuse(s, a, b); }
    if Presented(s.holders[a].resource) == Unreadable {
      UnreadableReaches(s, a);
      UnreadableReaches(s, b);
    }
  }

  /**
   * How far two calls granted the same resource can both write. In every run, while no
   * slot is collected in between and the name reaches the nodes as it is, the nodes
   * refusing one or the other are at least as many as the tokens exceed the node count;
   * so both can reach `w` nodes only when the tokens are few. In particular, calls that
   * hold tokens of all nodes cannot both reach more than half of them. With a name the
   * nodes cannot read, both reach all of them.
   */
  lemma TwoGrantsReach(clocks: seq<int>, steps: seq<Step>, a: string, b: string, w: nat)
    requires LegalRun(Initial(clocks), steps)
    requires var s := Run(Initial(clocks), steps); BothGranted(s, a, b) && Uncollected(s, a, b)
    ensures var s := Run(Initial(clocks), steps);
            var held := |s.holders[a].tokens| + |s.holders[b].tokens|;
            && held - |s.nodes| >= 1
            && (Fenceable(s.holders[a].resource) ==>
                  && |Refusing(s, a)| + |Refusing(s, b)| >= held - |s.nodes|
                  && (|Admitting(s, a)| >= w && |Admitting(s, b)| >= w ==> held + 2 * w <= 3 * |s.nodes|))
            && (Presented(s.holders[a].resource) == Unreadable ==> |Admitting(s, a)| == |Admitting(s, b)| == |s.nodes|)
  {
    var s := Run(Initial(clocks), steps);
    InitialSound(clocks);
    RunSound(Initial(clocks), steps);
    hide SystemSound, Uncollected, Fenceable, Refusing, Admitting, Presented, Run, LegalRun;
    ReachOf(s, a, b);
    AdmittingSize(s, a);
    AdmittingSize(s, b);
  }
}
