/**
 * Quorum locks by example: three nodes, and two calls that are granted the same resource
 * one after the other with the tokens of two nodes each. The resource may have any name.
 */
module QuorumExamples {
  import opened Wrappers
  import LT = LockTable
  import opened QuorumLock

  // The nodes: granted to "a", then to "b" as well, and to "b" alone.

  function NodeA(r: string): LT.Node {
    LT.Node(map[r := LT.Slot("a", 30_000, 1)], 0, [LT.Lease(r, "a", 1, 30_000, 0)], map[], [])
  }

  function NodeAB(r: string): LT.Node {
    LT.Node(map[r := LT.Slot("b", 60_000, 2)], 30_000, [LT.Lease(r, "a", 1, 30_000, 0), LT.Lease(r, "b", 2, 60_000, 0)], map[], [])
  }

  function NodeB(r: string): LT.Node {
    LT.Node(map[r := LT.Slot("b", 60_000, 1)], 30_000, [LT.Lease(r, "b", 1, 60_000, 0)], map[], [])
  }

  /** A node whose clock has moved on by one lease time. */
  function Later(n: LT.Node): LT.Node {
    n.(now := 30_000)
  }

  lemma NoCollection(n: LT.Node)
    requires |n.slots| <= LT.GC_ABOVE
    ensures LT.Collected(n) == n
  {
    assert n.eras + (map r | r in n.slots.Keys - n.slots.Keys :: LT.Era(n, r) + 1) == n.eras;
  }

  /** A request that meets a free or expired slot, in a table too small to be collected. */
  lemma SimpleGrant(n: LT.Node, r: string, o: string, slot: LT.Slot, lease: LT.Lease)
    requires |n.slots| <= LT.GC_ABOVE && !LT.HeldByOther(LT.SlotOf(n.slots, r, n.now), o, n.now)
    requires slot == LT.Regranted(LT.SlotOf(n.slots, r, n.now), o, LT.LOCK_TTL, n.now)
    requires lease == LT.Lease(r, o, slot.token, slot.expiry, LT.Era(n, r))
    ensures LT.AcquireStep(n, r, o) == (n.(slots := n.slots[r := slot], leases := n.leases + [lease]), Some(slot.token))
  {
    NoCollection(n);
    hide LT.Collected;
  }

  /** The grants of the example. */
  lemma ExampleGrants(r: string)
    ensures LT.AcquireStep(LT.FreshNode(0), r, "a") == (NodeA(r), Some(1))
    ensures LT.AcquireStep(Later(NodeA(r)), r, "b") == (NodeAB(r), Some(2))
    ensures LT.AcquireStep(LT.FreshNode(30_000), r, "b") == (NodeB(r), Some(1))
  {
    hide LT.AcquireStep;
    var leaseA, leaseB, onlyB := LT.Lease(r, "a", 1, 30_000, 0), LT.Lease(r, "b", 2, 60_000, 0), LT.Lease(r, "b", 1, 60_000, 0);
    SimpleGrant(LT.FreshNode(0), r, "a", LT.Slot("a", 30_000, 1), leaseA);
    SimpleGrant(Later(NodeA(r)), r, "b", LT.Slot("b", 60_000, 2), leaseB);
    SimpleGrant(LT.FreshNode(30_000), r, "b", LT.Slot("b", 60_000, 1), onlyB);
    var none: LT.Slots := map[];
    assert none[r := LT.Slot("a", 30_000, 1)] == NodeA(r).slots && [] + [leaseA] == NodeA(r).leases;
    assert NodeA(r).slots[r := LT.Slot("b", 60_000, 2)] == NodeAB(r).slots && NodeA(r).leases + [leaseB] == NodeAB(r).leases;
    assert none[r := LT.Slot("b", 60_000, 1)] == NodeB(r).slots && [] + [onlyB] == NodeB(r).leases;
  }

  lemma OneStep(s: System, step: Step, rest: seq<Step>)
    requires Enabled(s, step) && LegalRun(Next(s, step), rest)
    ensures LegalRun(s, [step] + rest) && Run(s, [step] + rest) == Run(Next(s, step), rest)
  {
    assert ([step] + rest)[1..] == rest;
  }

  function HolderA(r: string): Holder {
    Holder(r, map[0 := Fence(1, 0), 1 := Fence(1, 0)], true)
  }

  function HolderB(r: string): Holder {
    Holder(r, map[1 := Fence(2, 0), 2 := Fence(1, 0)], true)
  }

  /**
   * The run: call "a" is granted the resource with the tokens of nodes 0 and 1, its leases
   * run out, and call "b" is granted it with those of nodes 1 and 2, its request to
   * node 0 not arriving.
   */
  function Example(r: string): (steps: seq<Step>)
    ensures |steps| == 11
  {
    [
      Start("a", r), TryAcquire("a", 0, true), TryAcquire("a", 1, true), Conclude("a"),
      Tick(0, 30_000), Tick(1, 30_000), Tick(2, 30_000),
      Start("b", r), TryAcquire("b", 1, true), TryAcquire("b", 2, true), Conclude("b")]
  }

  function NodeAt(r: string, i: nat, x: nat): LT.Node {
    match x
    case 0 => if i < 2 then LT.FreshNode(0) else if i < 5 then NodeA(r) else Later(NodeA(r))
    case 1 => if i < 3 then LT.FreshNode(0) else if i < 6 then NodeA(r) else if i < 9 then Later(NodeA(r)) else NodeAB(r)
    case _ => if i < 7 then LT.FreshNode(0) else if i < 10 then LT.FreshNode(30_000) else NodeB(r)
  }

  function HoldersAt(r: string, i: nat): map<string, Holder> {
    if i == 0 then map[]
    else if i == 1 then map["a" := Holder(r, map[], false)]
    else if i == 2 then map["a" := Holder(r, map[0 := Fence(1, 0)], false)]
    else if i == 3 then map["a" := HolderA(r).(granted := false)]
    else if i < 8 then map["a" := HolderA(r)]
    else if i == 8 then map["a" := HolderA(r), "b" := Holder(r, map[], false)]
    else if i == 9 then map["a" := HolderA(r), "b" := Holder(r, map[1 := Fence(2, 0)], false)]
    else if i == 10 then map["a" := HolderA(r), "b" := HolderB(r).(granted := false)]
    else map["a" := HolderA(r), "b" := HolderB(r)]
  }

  /** The state before step `i` of the example. */
  function StateAt(r: string, i: nat): System {
    System([NodeAt(r, i, 0), NodeAt(r, i, 1), NodeAt(r, i, 2)], HoldersAt(r, i))
  }

  lemma TickNodes(r: string)
    ensures LT.NodeStep(LT.FreshNode(0), LT.NodeOp.Tick(30_000)) == LT.FreshNode(30_000)
    ensures LT.NodeStep(NodeA(r), LT.NodeOp.Tick(30_000)) == Later(NodeA(r))
  {
  }

  /** A request that is granted and answered. */
  lemma TryStep(s: System, o: string, x: nat, node': LT.Node, token: nat)
    requires o in s.holders && !s.holders[o].granted && x < |s.nodes|
    requires LT.AcquireStep(s.nodes[x], s.holders[o].resource, o) == (node', Some(token))
    ensures Enabled(s, TryAcquire(o, x, true))
    ensures var h := s.holders[o];
            Next(s, TryAcquire(o, x, true))
            == System(s.nodes[x := node'], s.holders[o := h.(tokens := h.tokens[x := Fence(token, LT.Era(node', h.resource))])])
  {
    hide LT.AcquireStep;
  }

  lemma ExampleTryA0(r: string)
    ensures Enabled(StateAt(r, 1), Example(r)[1]) && Next(StateAt(r, 1), Example(r)[1]) == StateAt(r, 2)
  {
    ExampleGrants(r);
    hide Next, Enabled, LT.AcquireStep, LT.FreshNode;
    TryStep(StateAt(r, 1), "a", 0, NodeA(r), 1);
  }

  lemma ExampleTryA1(r: string)
    ensures Enabled(StateAt(r, 2), Example(r)[2]) && Next(StateAt(r, 2), Example(r)[2]) == StateAt(r, 3)
  {
    ExampleGrants(r);
    hide Next, Enabled, LT.AcquireStep, LT.FreshNode;
    TryStep(StateAt(r, 2), "a", 1, NodeA(r), 1);
  }

  lemma ExampleTryB1(r: string)
    ensures Enabled(StateAt(r, 8), Example(r)[8]) && Next(StateAt(r, 8), Example(r)[8]) == StateAt(r, 9)
  {
    ExampleGrants(r);
    hide Next, Enabled, LT.AcquireStep, LT.FreshNode;
    TryStep(StateAt(r, 8), "b", 1, NodeAB(r), 2);
  }

  lemma ExampleTryB2(r: string)
    ensures Enabled(StateAt(r, 9), Example(r)[9]) && Next(StateAt(r, 9), Example(r)[9]) == StateAt(r, 10)
  {
    ExampleGrants(r);
    hide Next, Enabled, LT.AcquireStep, LT.FreshNode;
    TryStep(StateAt(r, 9), "b", 2, NodeB(r), 1);
  }

  lemma ExampleCalls(r: string, i: nat)
    requires i == 0 || i == 3 || i == 7 || i == 10
    ensures Enabled(StateAt(r, i), Example(r)[i]) && Next(StateAt(r, i), Example(r)[i]) == StateAt(r, i + 1)
  {
    hide LT.AcquireStep, LT.FreshNode, LT.NodeStep;
  }

  lemma ExampleTicks(r: string, i: nat)
    requires 4 <= i < 7
    ensures Enabled(StateAt(r, i), Example(r)[i]) && Next(StateAt(r, i), Example(r)[i]) == StateAt(r, i + 1)
  {
    TickNodes(r);
    hide LT.AcquireStep, LT.FreshNode, LT.NodeStep;
  }

  lemma ExampleStep(r: string, i: nat)
    requires i < 11
    ensures Enabled(StateAt(r, i), Example(r)[i]) && Next(StateAt(r, i), Example(r)[i]) == StateAt(r, i + 1)
  {
    hide StateAt, Next, Enabled;
    if 4 <= i < 7 {
      ExampleTicks(r, i);
    } else if i == 1 {
      ExampleTryA0(r);
    } else if i == 2 {
      ExampleTryA1(r);
    } else if i == 8 {
      ExampleTryB1(r);
    } else if i == 9 {
      ExampleTryB2(r);
    } else {
      ExampleCalls(r, i);
    }
  }

  lemma {:induction false} ExampleRun(r: string, i: nat)
    requires i <= 11
    ensures LegalRun(StateAt(r, i), Example(r)[i..]) && Run(StateAt(r, i), Example(r)[i..]) == StateAt(r, 11)
    decreases 11 - i
  {
    hide StateAt, Next, Enabled, LegalRun, Run;
    if i == 11 {
      NoSteps(StateAt(r, 11), Example(r)[11..]);
    } else {
      ExampleStep(r, i);
      ExampleRun(r, i + 1);
      OneStep(StateAt(r, i), Example(r)[i], Example(r)[i + 1..]);
      assert Example(r)[i..] == [Example(r)[i]] + Example(r)[i + 1..];
    }
  }

  lemma NoSteps(s: System, steps: seq<Step>)
    requires |steps| == 0
    ensures LegalRun(s, steps) && Run(s, steps) == s
  {
  }

  lemma InitialState(r: string)
    ensures Initial([0, 0, 0]) == StateAt(r, 0)
  {
    hide LT.FreshNode;
    var s := Initial([0, 0, 0]);
    assert |s.nodes| == 3 && s.nodes[0] == s.nodes[1] == s.nodes[2] == LT.FreshNode(0);
  }

  /** The whole run, for any name of the resource. */
  lemma WholeRun(r: string)
    ensures LegalRun(Initial([0, 0, 0]), Example(r)) && Run(Initial([0, 0, 0]), Example(r)) == StateAt(r, 11)
  {
    ExampleRun(r, 0);
    InitialState(r);
    hide *;
    assert Example(r)[0..] == Example(r);
  }

  /** How it ends: both calls are granted, the first has lost node 1 to the second, and nothing was collected. */
  lemma ExampleEnds(r: string)
    ensures var s := StateAt(r, 11);
            BothGranted(s, "a", "b") && Uncollected(s, "a", "b") && LostAt(s, "a", 1) && s.holders["a"].resource == r
  {
    var n := NodeAB(r);
    assert OutrunBy(n, "a", r, Fence(1, 0), 0) by {
      assert n.leases[1].owner != n.leases[0].owner && n.leases[1].resource == n.leases[0].resource;
    }
  }

  /**
   * With bare majorities the fences do not keep a stale call from a write quorum: of
   * three nodes, the one both calls hold a token of refuses the older call, and the
   * other two let it through, one on its old token and one unfenced.
   */
  lemma StaleReachesTwo(r: string)
    requires Presented(r) == Read(r)
    ensures LegalRun(Initial([0, 0, 0]), Example(r))
    ensures var s := Run(Initial([0, 0, 0]), Example(r));
            && BothGranted(s, "a", "b") && Uncollected(s, "a", "b")
            && Refusing(s, "a") == {1} && Admitting(s, "a") == {0, 2} && Admitting(s, "b") == {0, 1, 2}
  {
    WholeRun(r);
    ExampleEnds(r);
    hide Run, LegalRun, Initial, Presented, Uncollected, BothGranted;
    var s := StateAt(r, 11);
    assert Admits(s, "a", 0) && !Admits(s, "a", 1) && Admits(s, "a", 2);
    assert Admits(s, "b", 0) && Admits(s, "b", 1) && Admits(s, "b", 2);
  }

  /**
   * A name that does not reach the nodes as it is leaves the stale call unfenced: in the
   * same run, without any collection, every node lets it through, the one where it
   * lost the resource included.
   */
  lemma StaleReachesAll(r: string)
    requires !Fenceable(r)
    ensures LegalRun(Initial([0, 0, 0]), Example(r))
    ensures var s := Run(Initial([0, 0, 0]), Example(r));
            BothGranted(s, "a", "b") && Uncollected(s, "a", "b") && LostAt(s, "a", 1) && Admitting(s, "a") == {0, 1, 2}
  {
    WholeRun(r);
    ExampleEnds(r);
    hide Run, LegalRun, Initial, Presented, Uncollected, BothGranted, LostAt;
    var s := StateAt(r, 11);
    assert Admits(s, "a", 0) && Admits(s, "a", 1) && Admits(s, "a", 2);
  }

  /** Such names: an object key with an accented letter, and one that ends in a blank. */
  lemma UnfenceableNames()
    ensures Presented("docs/caf\U{E9}") == Unreadable && !Fenceable("docs/caf\U{E9}")
    ensures Presented("docs/key ") == Read("docs/key") && !Fenceable("docs/key ")
    ensures Fenceable("docs/key")
  {
    Accented();
    TrailingBlank();
    hide Presented;
    PlainName();
  }

  lemma Accented()
    ensures Presented("docs/caf\U{E9}") == Unreadable
  {
    var name := "docs/caf\U{E9}";
    assert name[8] as int == 0xE9;
  }

  lemma TrailingBlank()
    ensures Presented("docs/key ") == Read("docs/key")
  {
    var name := "docs/key ";
    assert name[8] == ' ' && name[..8] == "docs/key";
    assert Stripped("docs/key") == "docs/key";
    assert Stripped(name) == "docs/key";
  }

  lemma PlainName()
    ensures Presented("docs/key") == Read("docs/key")
  {
    assert Stripped("docs/key") == "docs/key";
  }
}
