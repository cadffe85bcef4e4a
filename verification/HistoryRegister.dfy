/**
 * The history of a key, replicated to every drive without a quorum
 * (src/erasure/store.rs): a read takes the copy with the highest epoch, a write
 * bumps the epoch it read and goes to whatever drives it reaches.
 */
module HistoryRegister {
  import opened Wrappers
  import opened FileWrites

  datatype Copy<T> = Copy(versions: seq<T>, epoch: nat)

  /** One operation: the drives it can read, the versions it wants to store, what becomes of its writes. */
  datatype Update<T> = Update(readable: seq<bool>, next: seq<T>, landings: seq<Landing>)

  type Drives<T> = seq<Option<Copy<T>>>

  /** The readable copy with the highest epoch, the first drive winning a tie. */
  function Best<T>(drives: Drives<T>, readable: seq<bool>): Option<Copy<T>>
    requires |readable| == |drives|
  {
    if drives == [] then None
    else
      var n := |drives| - 1;
      var best := Best(drives[..n], readable[..n]);
      if readable[n] && drives[n].Some? && (best.Some? ==> drives[n].value.epoch > best.value.epoch) then drives[n] else best
  }

  function Latest<T>(drives: Drives<T>, readable: seq<bool>): Copy<T>
    requires |readable| == |drives|
  {
    Best(drives, readable).GetOr(Copy([], 0))
  }

  function Written<T>(drives: Drives<T>, landings: seq<Landing>, copy: Copy<T>): (r: Drives<T>)
    requires |landings| == |drives|
    ensures |r| == |drives|
  {
    seq(|drives|, d requires 0 <= d < |drives| => AfterWriting(drives[d], landings[d], copy))
  }

  predicate Fits<T>(u: Update<T>, n: nat) {
    |u.readable| == n && |u.landings| == n
  }

  /** Read, edit, write back with the epoch one higher. */
  function Apply<T>(drives: Drives<T>, u: Update<T>): (r: Drives<T>)
    requires Fits(u, |drives|)
    ensures |r| == |drives|
  {
    Written(drives, u.landings, Copy(u.next, Latest(drives, u.readable).epoch + 1))
  }

  class Register<T> {
    var drives: Drives<T>

    constructor (n: nat)
      ensures drives == seq(n, _ => None)
    {
      drives := seq(n, _ => None);
    }

    /** Scan the drives for the highest epoch. */
    method ReadHistory(readable: seq<bool>) returns (h: Copy<T>)
      requires |readable| == |drives|
      ensures h == Latest(drives, readable)
    {
      var best: Option<Copy<T>> := None;
      for d := 0 to |drives|
        invariant best == Best(drives[..d], readable[..d])
      {
        assert drives[..d + 1][..d] == drives[..d] && readable[..d + 1][..d] == readable[..d];
        if readable[d] && drives[d].Some? {
          if best.None? || drives[d].value.epoch > best.value.epoch {
            best := drives[d];
          }
        }
      }
      assert drives[..|drives|] == drives && readable[..|drives|] == readable;
      h := best.GetOr(Copy([], 0));
    }

    /** Write to every drive; an error only when no drive acknowledged. */
    method WriteHistory(h: Copy<T>, landings: seq<Landing>) returns (ok: bool)
      requires |landings| == |drives|
      modifies this
      ensures drives == Written(old(drives), landings, Copy(h.versions, h.epoch + 1))
      ensures ok <==> Acked in landings
    {
      var copy := h.(epoch := h.epoch + 1);
      var acked := 0;
      for d := 0 to |drives|
        invariant |drives| == |old(drives)|
        invariant forall e :: 0 <= e < d ==> drives[e] == AfterWriting(old(drives)[e], landings[e], copy)
        invariant forall e :: d <= e < |drives| ==> drives[e] == old(drives)[e]
        invariant acked > 0 <==> exists e :: 0 <= e < d && landings[e].Acked?
      {
        drives := drives[d := AfterWriting(drives[d], landings[d], copy)];
        if landings[d].Acked? { acked := acked + 1; }
      }
      ok := acked > 0;
    }

    method Edit(u: Update<T>) returns (ok: bool)
      requires Fits(u, |drives|)
      modifies this
      ensures drives == Apply(old(drives), u)
      ensures ok <==> Acked in u.landings
    {
      var h := ReadHistory(u.readable);
      ok := WriteHistory(h.(versions := u.next), u.landings);
    }

    /** Drop the history with the key directory, on the drives that can be reached. */
    method Purge(reached: seq<bool>)
      requires |reached| == |drives|
      modifies this
      ensures drives == Purged(old(drives), reached)
    {
      for d := 0 to |drives|
        invariant |drives| == |old(drives)|
        invariant forall e :: 0 <= e < d ==> drives[e] == if reached[e] then None else old(drives)[e]
        invariant forall e :: d <= e < |drives| ==> drives[e] == old(drives)[e]
      {
        if reached[d] { drives := drives[d := None]; }
      }
    }
  }

  function Purged<T>(drives: Drives<T>, reached: seq<bool>): (r: Drives<T>)
    requires |reached| == |drives|
    ensures |r| == |drives|
  {
    seq(|drives|, d requires 0 <= d < |drives| => if reached[d] then None else drives[d])
  }

  // ---------------------------------------------------------------------------
  // What a read returns
  // ---------------------------------------------------------------------------

  ghost predicate Readable<T>(drives: Drives<T>, readable: seq<bool>, d: nat)
    requires |readable| == |drives|
  {
    d < |drives| && readable[d] && drives[d].Some?
  }

  /** The copy read is a readable one, no readable one is newer, and earlier drives are older. */
  lemma {:induction false} BestIsNewest<T>(drives: Drives<T>, readable: seq<bool>) returns (at: nat)
    requires |readable| == |drives|
    ensures Best(drives, readable).None? <==> forall d: nat :: !Readable(drives, readable, d)
    ensures var best := Best(drives, readable);
            best.Some? ==>
              && Readable(drives, readable, at) && drives[at] == best
              && (forall d: nat :: Readable(drives, readable, d) ==> drives[d].value.epoch <= best.value.epoch)
              && (forall d: nat :: Readable(drives, readable, d) && d < at ==> drives[d].value.epoch < best.value.epoch)
  {
    at := 0;
    if drives != [] {
      var n := |drives| - 1;
      var before := BestIsNewest(drives[..n], readable[..n]);
      var best := Best(drives[..n], readable[..n]);
      assert forall d: nat :: d < n ==> (Readable(drives, readable, d) <==> Readable(drives[..n], readable[..n], d));
      if readable[n] && drives[n].Some? && (best.Some? ==> drives[n].value.epoch > best.value.epoch) {
        at := n;
        assert Readable(drives, readable, n);
      } else {
        at := before;
        assert best.None? ==> !Readable(drives, readable, n);
      }
    }
  }

  // ---------------------------------------------------------------------------
  // Runs
  // ---------------------------------------------------------------------------

  /** What an observer of the writes knows: the last history that landed, and on which drives. */
  datatype Shadow<T> = Shadow(last: Copy<T>, holders: set<nat>)

  ghost function Took<T>(u: Update<T>): set<nat> {
    set d: nat | d < |u.landings| && u.landings[d].Lands()
  }

  /** The drives whose copy the operation destroys. */
  ghost function Tears<T>(u: Update<T>): set<nat> {
    set d: nat | d < |u.landings| && u.landings[d].Torn?
  }

  ghost function Observe<T>(sh: Shadow<T>, u: Update<T>): Shadow<T> {
    if Took(u) == {} then sh.(holders := sh.holders - Tears(u)) else Shadow(Copy(u.next, sh.last.epoch + 1), Took(u))
  }

  /** A drive that took the last write is among the readable ones, or nothing was ever written. */
  ghost predicate Overlaps<T>(sh: Shadow<T>, readable: seq<bool>) {
    sh.last.epoch == 0 || exists d :: d in sh.holders && d < |readable| && readable[d]
  }

  ghost predicate InSync<T>(drives: Drives<T>, sh: Shadow<T>) {
    && (forall d :: d in sh.holders ==> d < |drives| && drives[d] == Some(sh.last))
    && (forall d :: 0 <= d < |drives| && d !in sh.holders && drives[d].Some? ==> drives[d].value.epoch < sh.last.epoch)
    && (sh.last.epoch == 0 ==> sh == Shadow(Copy([], 0), {}))
  }

  /** A read returns the last write if and only if it reaches a drive that took it. */
  lemma ReadIsLastIff<T>(drives: Drives<T>, sh: Shadow<T>, readable: seq<bool>)
    requires |readable| == |drives| && InSync(drives, sh)
    ensures Latest(drives, readable) == sh.last <==> Overlaps(sh, readable)
    ensures !Overlaps(sh, readable) ==> Latest(drives, readable).epoch < sh.last.epoch
  {
    var at := BestIsNewest(drives, readable);
    if Overlaps(sh, readable) && sh.last.epoch > 0 {
      var d :| d in sh.holders && d < |readable| && readable[d];
      assert Readable(drives, readable, d);
    }
  }

  /** One operation that overlaps the last write supersedes it everywhere, or, landing nowhere, takes it from the drives it tears. */
  lemma EditKeepsSync<T>(drives: Drives<T>, sh: Shadow<T>, u: Update<T>)
    requires Fits(u, |drives|) && InSync(drives, sh) && Overlaps(sh, u.readable)
    ensures InSync(Apply(drives, u), Observe(sh, u))
  {
    ReadIsLastIff(drives, sh, u.readable);
    forall d: nat | d < |drives| ensures u.landings[d].Lands() <==> d in Took(u) {}
    forall d: nat | d < |drives| ensures u.landings[d].Torn? <==> d in Tears(u) {}
  }

  lemma {:induction false} SomeRead<T>(drives: Drives<T>, sh: Shadow<T>, holder: nat) returns (readable: seq<bool>)
    requires InSync(drives, sh) && holder in sh.holders
    ensures |readable| == |drives| && Latest(drives, readable) == sh.last
  {
    readable := seq(|drives|, d => d == holder);
    assert readable[holder];
    ReadIsLastIff(drives, sh, readable);
  }

  /**
   * An operation that lands nowhere reports an error; it nevertheless loses the last
   * history, for every later read, exactly when it tears every drive that holds it.
   */
  lemma FailedEditLosesIff<T>(drives: Drives<T>, sh: Shadow<T>, u: Update<T>)
    requires Fits(u, |drives|) && InSync(drives, sh) && Overlaps(sh, u.readable) && Took(u) == {} && sh.last.epoch > 0
    ensures Acked !in u.landings
    ensures (forall readable :: |readable| == |drives| ==> Latest(Apply(drives, u), readable) != sh.last) <==> sh.holders <= Tears(u)
  {
    EditKeepsSync(drives, sh, u);
    var after, sh' := Apply(drives, u), Observe(sh, u);
    forall d: nat | d < |u.landings| ensures u.landings[d].Lands() <==> d in Took(u) {}
    if sh.holders <= Tears(u) {
      forall readable | |readable| == |drives| ensures Latest(after, readable) != sh.last {
        ReadIsLastIff(after, sh', readable);
      }
    } else {
      var d :| d in sh.holders && d !in Tears(u);
      var readable := SomeRead(after, sh', d);
    }
  }

  /** The only copy of the last write torn by an edit that fails: the history then reads as empty. */
  lemma TornEditLosesHistory()
    ensures var u := Update([true, true], [2, 1], [Torn, Missed]);
            var drives: Drives<int> := [Some(Copy([1], 1)), None];
            Acked !in u.landings && Latest(drives, u.readable) == Copy([1], 1) && Latest(Apply(drives, u), [true, true]) == Copy([], 0)
  {
    var u := Update([true, true], [2, 1], [Torn, Missed]);
    var drives: Drives<int> := [Some(Copy([1], 1)), None];
    BestOfTwo(drives, u.readable);
    var none: Drives<int> := [None, None];
    assert Apply(drives, u) == none;
    BestOfTwo(none, [true, true]);
  }

  /** An operation writes a higher epoch than the last write if and only if it read a drive that took it. */
  lemma EpochGrowsIff<T>(drives: Drives<T>, sh: Shadow<T>, u: Update<T>, d: nat)
    requires Fits(u, |drives|) && InSync(drives, sh) && d in Took(u)
    ensures Apply(drives, u)[d].Some?
    ensures Apply(drives, u)[d].value.epoch > sh.last.epoch <==> Overlaps(sh, u.readable)
  {
    ReadIsLastIff(drives, sh, u.readable);
  }

  ghost predicate AllFit<T>(ops: seq<Update<T>>, n: nat) {
    forall i :: 0 <= i < |ops| ==> Fits(ops[i], n)
  }

  ghost function ObserveAll<T>(sh: Shadow<T>, ops: seq<Update<T>>): Shadow<T>
    decreases |ops|
  {
    if ops == [] then sh else ObserveAll(Observe(sh, ops[0]), ops[1..])
  }

  /** Every operation overlaps the write before it. */
  ghost predicate Chained<T>(sh: Shadow<T>, ops: seq<Update<T>>)
    decreases |ops|
  {
    ops == [] || (Overlaps(sh, ops[0].readable) && Chained(Observe(sh, ops[0]), ops[1..]))
  }

  ghost function Run<T>(drives: Drives<T>, ops: seq<Update<T>>): (r: Drives<T>)
    requires AllFit(ops, |drives|)
    ensures |r| == |drives|
    decreases |ops|
  {
    if ops == [] then drives
    else
      assert AllFit(ops[1..], |drives|);
      Run(Apply(drives, ops[0]), ops[1..])
  }

  ghost function Writes<T>(ops: seq<Update<T>>): nat {
    if ops == [] then 0 else (if Took(ops[0]) == {} then 0 else 1) + Writes(ops[1..])
  }

  /**
   * Over every run in which each operation reaches a drive that took the write before
   * it and still has it, any drives going down and coming back in between and any failed
   * operation tearing copies: a read that reaches such a
   * drive returns the last written history, one that does not returns a strictly older
   * epoch, and the epoch counts the writes, so a stale copy never wins.
   */
  lemma {:induction false} RunReadsLast<T>(drives: Drives<T>, sh: Shadow<T>, ops: seq<Update<T>>, readable: seq<bool>)
    requires AllFit(ops, |drives|) && |readable| == |drives|
    requires InSync(drives, sh) && Chained(sh, ops)
    ensures var end := ObserveAll(sh, ops);
            && InSync(Run(drives, ops), end)
            && end.last.epoch == sh.last.epoch + Writes(ops)
            && (Latest(Run(drives, ops), readable) == end.last <==> Overlaps(end, readable))
            && (!Overlaps(end, readable) ==> Latest(Run(drives, ops), readable).epoch < end.last.epoch)
    decreases |ops|
  {
    if ops == [] {
      ReadIsLastIff(drives, sh, readable);
    } else {
      EditKeepsSync(drives, sh, ops[0]);
      RunReadsLast(Apply(drives, ops[0]), Observe(sh, ops[0]), ops[1..], readable);
    }
  }

  // ---------------------------------------------------------------------------
  // Edits that miss the last write
  // ---------------------------------------------------------------------------

  /** What the edit puts on the drives it reaches. */
  function CopyOf<T>(drives: Drives<T>, u: Update<T>): Copy<T>
    requires Fits(u, |drives|)
  {
    Copy(u.next, Latest(drives, u.readable).epoch + 1)
  }

  /** Drive `e` keeps a read from returning the edit's copy, which is on drive `d`: its older copy is newer, or as new and on an earlier drive. */
  ghost predicate Outvotes<T>(drives: Drives<T>, u: Update<T>, d: nat, e: nat)
    requires Fits(u, |drives|)
  {
    && e < |drives| && u.landings[e].Missed? && drives[e].Some? && drives[e].value != CopyOf(drives, u)
    && (drives[e].value.epoch > CopyOf(drives, u).epoch || (drives[e].value.epoch == CopyOf(drives, u).epoch && e < d))
  }

  /** Drive `d` has the edit's copy afterwards. */
  ghost predicate Carries<T>(drives: Drives<T>, u: Update<T>, d: nat)
    requires Fits(u, |drives|)
  {
    d < |drives| && (u.landings[d].Lands() || (u.landings[d].Missed? && drives[d] == Some(CopyOf(drives, u))))
  }

  /**
   * Exactly when a read returns what an edit wrote: it reaches a drive that has it, and
   * none that outvotes it.
   */
  lemma EditReadIff<T>(drives: Drives<T>, u: Update<T>, readable: seq<bool>)
    requires Fits(u, |drives|) && |readable| == |drives|
    ensures Best(Apply(drives, u), readable) == Some(CopyOf(drives, u)) <==>
              exists d: nat :: Carries(drives, u, d) && readable[d] && forall e: nat :: e < |drives| && readable[e] ==> !Outvotes(drives, u, d, e)
  {
    var after, copy := Apply(drives, u), CopyOf(drives, u);
    var at := BestIsNewest(after, readable);
    forall d: nat | d < |drives| ensures Readable(after, readable, d) && after[d].value == copy <==> readable[d] && Carries(drives, u, d) {}
    if Best(after, readable) == Some(copy) {
      assert Carries(drives, u, at);
      forall e: nat | e < |drives| && readable[e] ensures !Outvotes(drives, u, at, e) {
        assert Outvotes(drives, u, at, e) ==> Readable(after, readable, e);
      }
    }
    if d: nat :| Carries(drives, u, d) && readable[d] && forall e: nat :: e < |drives| && readable[e] ==> !Outvotes(drives, u, d, e) {
      assert Readable(after, readable, d) && after[d].value == copy;
      assert !Outvotes(drives, u, d, at);
    }
  }

  /**
   * An edit that misses the last write, although acknowledged, loses to it: a read that
   * also reaches a drive still holding the last write can return the edit only when the
   * edit's epoch happens to equal the last one and it sits on an earlier drive.
   */
  lemma LateEditLoses<T>(drives: Drives<T>, sh: Shadow<T>, u: Update<T>, readable: seq<bool>, holder: nat)
    requires Fits(u, |drives|) && |readable| == |drives| && InSync(drives, sh) && !Overlaps(sh, u.readable)
    requires holder in sh.holders && readable[holder] && u.landings[holder].Missed? && CopyOf(drives, u) != sh.last
    ensures CopyOf(drives, u).epoch <= sh.last.epoch
    ensures Best(Apply(drives, u), readable) == Some(CopyOf(drives, u)) ==>
              CopyOf(drives, u).epoch == sh.last.epoch && exists d: nat :: d < holder && readable[d] && Carries(drives, u, d)
  {
    ReadIsLastIff(drives, sh, u.readable);
    EditReadIff(drives, u, readable);
    if Best(Apply(drives, u), readable) == Some(CopyOf(drives, u)) {
      var d: nat :| Carries(drives, u, d) && readable[d] && forall e: nat :: e < |drives| && readable[e] ==> !Outvotes(drives, u, d, e);
      assert !Outvotes(drives, u, d, holder);
    }
  }

  /** Two edits that reach disjoint drives, both acknowledged: which one is read depends on the drives reached, and both together give the first. */
  lemma DisjointEdits()
    ensures var first := Update([true, false], [1], [Acked, Missed]);
            var second := Update([false, true], [2], [Missed, Acked]);
            var none: Drives<int> := [None, None];
            var after := Apply(Apply(none, first), second);
            && Latest(after, [true, true]) == Copy([1], 1)
            && Latest(after, [false, true]) == Copy([2], 1)
  {
    var none: Drives<int> := [None, None];
    var u := Update([true, false], [1], [Acked, Missed]);
    var first := Apply(none, u);
    BestOfTwo(none, u.readable);
    assert first == [Some(Copy([1], 1)), None];
    var v := Update([false, true], [2], [Missed, Acked]);
    BestOfTwo(first, v.readable);
    var second := Apply(first, v);
    assert second == [Some(Copy([1], 1)), Some(Copy([2], 1))];
    BestOfTwo(second, [true, true]);
    BestOfTwo(second, [false, true]);
  }

  lemma BestOfTwo<T>(drives: Drives<T>, readable: seq<bool>)
    requires |drives| == |readable| == 2
    ensures var first := if readable[0] then drives[0] else None;
            Best(drives, readable)
            == if readable[1] && drives[1].Some? && (first.Some? ==> drives[1].value.epoch > first.value.epoch) then drives[1] else first
  {
    var one, r := drives[..1], readable[..1];
    assert one[..0] == [] && one == [drives[0]] && r == [readable[0]];
    assert Best(one, r) == if readable[0] then drives[0] else None;
  }

  /** A purge is final, for every later set of readable drives, exactly when it reached every drive with a copy. */
  lemma PurgeIsFinalIff<T>(drives: Drives<T>, reached: seq<bool>)
    requires |reached| == |drives|
    ensures (forall readable :: |readable| == |drives| ==> Best(Purged(drives, reached), readable).None?)
            <==> forall d :: 0 <= d < |drives| && drives[d].Some? ==> reached[d]
  {
    var after := Purged(drives, reached);
    if forall d :: 0 <= d < |drives| && drives[d].Some? ==> reached[d] {
      forall readable | |readable| == |drives| ensures Best(after, readable).None? {
        var at := BestIsNewest(after, readable);
      }
    } else {
      var d :| 0 <= d < |drives| && drives[d].Some? && !reached[d];
      var all := seq(|drives|, _ => true);
      var at := BestIsNewest(after, all);
      assert Readable(after, all, d);
    }
  }
}
