/**
 * Writing, reading and healing one object on the drives of a pool
 * (src/erasure/store.rs): `write_sharded`, `reconstruct_into`, `heal_object`.
 */
module ErasureStore {
  import opened Wrappers
  import opened FileWrites
  import opened Codec
  import opened Sharding
  import Streams

  /** What goes wrong on one drive during a write. A failed rename may still have landed; the metadata write ends in any way. */
  datatype Faults = Faults(createOk: bool, failAt: Option<nat>, closeOk: bool,
                           renameOk: bool, renameLands: bool, meta: Landing, removeOk: bool)

  /** The writer of the drive survives `n` blocks. */
  predicate Streamed(f: Faults, n: nat) {
    f.createOk && (f.failAt.Some? ==> f.failAt.value >= n)
  }

  predicate Flushed(f: Faults, n: nat) {
    Streamed(f, n) && f.closeOk
  }

  predicate Published(f: Faults, n: nat) {
    Flushed(f, n) && f.renameOk
  }

  /** The drive reported every step of the write as done. */
  predicate Confirmed(f: Faults, n: nat) {
    Published(f, n) && f.meta.Acked?
  }

  /** What the write leaves on a drive. */
  function AfterWrite<D>(before: Drive<D>, f: Faults, n: nat, stream: seq<Byte>, meta: XlMeta<D>): Drive<D> {
    Drive(if Flushed(f, n) && (f.renameOk || f.renameLands) then Some(stream) else before.part,
          if Published(f, n) then AfterWriting(before.meta, f.meta, meta) else before.meta)
  }

  /** What goes wrong on one drive during a repair. */
  datatype RepairFaults = RepairFaults(createOk: bool, writeOk: bool, closeOk: bool, renameOk: bool, renameLands: bool, meta: Landing)

  datatype WriteError = ReadBody | QuorumNotMet(written: nat)

  datatype HealOutcome = Healthy | Healed(shards: nat) | Unrecoverable

  function Flags(faults: seq<Faults>, n: nat): seq<bool> {
    seq(|faults|, d requires 0 <= d < |faults| => Confirmed(faults[d], n))
  }

  // ---------------------------------------------------------------------------
  // Diagnosis of a stored object, as the heal scan sees it
  // ---------------------------------------------------------------------------

  /** Every metadata copy that survives is the object's. */
  ghost predicate Agreeing<D>(s: Setup<D>, body: seq<Byte>, attrs: Attributes, drives: seq<Drive<D>>)
    requires Proper(s)
  {
    |drives| == s.code.N() && forall d :: 0 <= d < |drives| && drives[d].meta.Some? ==> drives[d].meta.value == MetaOf(s, body, attrs)
  }

  /** The copy a reader and the healer go by, if there is one, is the object's. */
  ghost predicate GoesBy<D>(s: Setup<D>, body: seq<Byte>, attrs: Attributes, drives: seq<Drive<D>>)
    requires Proper(s)
  {
    |drives| == s.code.N() && (FirstMeta(drives).Some? ==> FirstMeta(drives) == Some(MetaOf(s, body, attrs)))
  }

  lemma AgreeingGoesBy<D>(s: Setup<D>, body: seq<Byte>, attrs: Attributes, drives: seq<Drive<D>>)
    requires Proper(s) && Agreeing(s, body, attrs, drives)
    ensures GoesBy(s, body, attrs, drives)
  {
    hide MetaOf, Proper;
    var _ := FirstMetaAt(drives);
  }

  ghost function BadParts<D>(s: Setup<D>, body: seq<Byte>, attrs: Attributes, drives: seq<Drive<D>>): (r: seq<bool>)
    requires Proper(s)
    ensures |r| == |drives| && forall d :: 0 <= d < |r| ==> r[d] == !Verifies(s, body, attrs, drives, d)
  {
    seq(|drives|, d requires 0 <= d < |drives| => !Verifies(s, body, attrs, drives, d))
  }

  function Negated(flags: seq<bool>): (r: seq<bool>)
    ensures |r| == |flags| && forall i :: 0 <= i < |r| ==> r[i] == !flags[i]
  {
    seq(|flags|, i requires 0 <= i < |flags| => !flags[i])
  }

  function BadMetas<D>(drives: seq<Drive<D>>): (r: seq<bool>)
    ensures |r| == |drives| && forall d :: 0 <= d < |r| ==> r[d] == drives[d].meta.None?
  {
    seq(|drives|, d requires 0 <= d < |drives| => drives[d].meta.None?)
  }

  function Either(a: seq<bool>, b: seq<bool>): (r: seq<bool>)
    requires |a| == |b|
    ensures |r| == |a| && forall i :: 0 <= i < |r| ==> r[i] == (a[i] || b[i])
  {
    seq(|a|, i requires 0 <= i < |a| => a[i] || b[i])
  }

  /** The outcome of a heal, and whether the drives are rebuilt. `None` is the error return. */
  ghost function HealResult<D>(s: Setup<D>, body: seq<Byte>, attrs: Attributes, drives: seq<Drive<D>>, dryRun: bool): (Option<HealOutcome>, bool)
    requires Proper(s)
  {
    var bad := BadParts(s, body, attrs, drives);
    var badMeta := BadMetas(drives);
    var damaged := Either(bad, badMeta);
    if Count(badMeta) == |drives| then (Some(Unrecoverable), false)
    else if Count(damaged) == 0 then (Some(Healthy), false)
    else if Count(bad) > 0 && !Readable(s, body, attrs, drives, 0) then (Some(Unrecoverable), false)
    else if dryRun then (Some(Healed(Count(damaged))), false)
    else if Count(bad) > 0 && Count(Negated(bad)) < s.code.k then (None, false)
    else (Some(Healed(Count(damaged))), true)
  }

  /** The drives after a rebuild: bad streams written anew, metadata wherever it was missing or the stream was bad. */
  ghost function HealedDrives<D>(s: Setup<D>, body: seq<Byte>, attrs: Attributes, drives: seq<Drive<D>>): (r: seq<Drive<D>>)
    requires Proper(s) && |drives| == s.code.N()
    ensures |r| == |drives|
  {
    seq(|drives|, d requires 0 <= d < |drives| =>
      if Verifies(s, body, attrs, drives, d) then
        Drive(drives[d].part, if drives[d].meta.Some? then drives[d].meta else Some(MetaOf(s, body, attrs)))
      else Drive(Some(FullStream(s, body, d)), Some(MetaOf(s, body, attrs))))
  }

  function FirstTrue(flags: seq<bool>): (r: Option<nat>)
    ensures r.Some? ==> r.value < |flags| && flags[r.value] && forall i :: 0 <= i < r.value ==> !flags[i]
    ensures r.None? ==> forall i :: 0 <= i < |flags| ==> !flags[i]
  {
    if |flags| == 0 then None
    else if flags[0] then Some(0)
    else match FirstTrue(flags[1..])
      case None => None
      case Some(i) => Some(i + 1)
  }

  /** The bad drives that do not take the rebuilt part. */
  function PartFails(faults: seq<RepairFaults>, bad: seq<bool>): (r: seq<bool>)
    requires |faults| == |bad|
    ensures |r| == |bad| && forall d :: 0 <= d < |r| ==> r[d] == (bad[d] && !(faults[d].closeOk && faults[d].renameOk))
  {
    seq(|bad|, d requires 0 <= d < |bad| => bad[d] && !(faults[d].closeOk && faults[d].renameOk))
  }

  /** The damaged drives that do not acknowledge the metadata. */
  function MetaFails(faults: seq<RepairFaults>, damaged: seq<bool>): (r: seq<bool>)
    requires |faults| == |damaged|
    ensures |r| == |damaged| && forall d :: 0 <= d < |r| ==> r[d] == (damaged[d] && !faults[d].meta.Acked?)
  {
    seq(|damaged|, d requires 0 <= d < |damaged| => damaged[d] && !faults[d].meta.Acked?)
  }

  /** The drive at which installing the parts stops, and that at which rewriting the metadata does. */
  function PartStop(faults: seq<RepairFaults>, bad: seq<bool>): Option<nat>
    requires |faults| == |bad|
  {
    FirstTrue(PartFails(faults, bad))
  }

  function MetaStop(faults: seq<RepairFaults>, damaged: seq<bool>): Option<nat>
    requires |faults| == |damaged|
  {
    FirstTrue(MetaFails(faults, damaged))
  }

  /** Every step of installing the rebuilt files succeeds. */
  predicate Installs(faults: seq<RepairFaults>, bad: seq<bool>, badMeta: seq<bool>)
    requires |faults| == |bad| == |badMeta|
  {
    PartStop(faults, bad).None? && MetaStop(faults, Either(bad, badMeta)).None?
  }

  /** One drive after the parts and then the metadata were installed in drive order, up to the first error. */
  function Installed<D>(before: Drive<D>, f: RepairFaults, bad: bool, badMeta: bool, rebuilt: seq<Byte>, meta: XlMeta<D>, d: nat,
                        partStop: Option<nat>, metaStop: Option<nat>): Drive<D> {
    var part := if bad && (partStop.None? || d < partStop.value || (d == partStop.value && f.closeOk && f.renameLands)) then Some(rebuilt) else before.part;
    var rewritten := partStop.None? && (bad || badMeta) && (metaStop.None? || d <= metaStop.value);
    Drive(part, if rewritten then AfterWriting(before.meta, f.meta, meta) else before.meta)
  }

  /** Every step of writing the rebuilt files aside succeeds. */
  predicate Stages(faults: seq<RepairFaults>, bad: seq<bool>)
    requires |faults| == |bad|
  {
    forall d :: 0 <= d < |bad| && bad[d] ==> faults[d].createOk && faults[d].writeOk
  }

  /** `g` good shards on the weakest of the first `n` blocks. */
  ghost predicate Weakest<D>(s: Setup<D>, body: seq<Byte>, attrs: Attributes, drives: seq<Drive<D>>, n: nat, g: nat)
    requires Proper(s) && n <= NBlocks(|body|, s.blockSize)
  {
    && (forall c :: 0 <= c < n ==> Present(SlotsOf(s, body, attrs, drives, c)) >= g)
    && (exists c :: 0 <= c < n && Present(SlotsOf(s, body, attrs, drives, c)) == g)
  }

  /** The drives after a heal that installs what it rebuilt, to the end or to the first error. */
  ghost function AfterHeal<D>(s: Setup<D>, body: seq<Byte>, attrs: Attributes, drives: seq<Drive<D>>, faults: seq<RepairFaults>): (r: seq<Drive<D>>)
    requires Proper(s) && |drives| == |faults| == s.code.N()
    ensures |r| == |drives|
  {
    var bad, badMeta := BadParts(s, body, attrs, drives), BadMetas(drives);
    var partStop, metaStop := PartStop(faults, bad), MetaStop(faults, Either(bad, badMeta));
    seq(|drives|, d requires 0 <= d < |drives| =>
      Installed(drives[d], faults[d], bad[d], badMeta[d], FullStream(s, body, d), MetaOf(s, body, attrs), d, partStop, metaStop))
  }

  lemma WeakestGrows<D>(s: Setup<D>, body: seq<Byte>, attrs: Attributes, drives: seq<Drive<D>>, n: nat, g: Option<nat>, good: nat)
    requires Proper(s) && n < NBlocks(|body|, s.blockSize) && (g.None? <==> n == 0)
    requires g.Some? ==> Weakest(s, body, attrs, drives, n, g.value)
    requires good == Present(SlotsOf(s, body, attrs, drives, n))
    ensures Weakest(s, body, attrs, drives, n + 1, if g.None? || good < g.value then good else g.value)
  {
    hide Mds, NBlocks, SlotsOf, Present;
    if g.Some? {
      var c :| 0 <= c < n && Present(SlotsOf(s, body, attrs, drives, c)) == g.value;
      assert Present(SlotsOf(s, body, attrs, drives, if good < g.value then n else c)) == if good < g.value then good else g.value;
    } else {
      assert Present(SlotsOf(s, body, attrs, drives, n)) == good;
    }
  }

  lemma WeakestDecides<D>(s: Setup<D>, body: seq<Byte>, attrs: Attributes, drives: seq<Drive<D>>, g: nat)
    requires Proper(s) && Weakest(s, body, attrs, drives, NBlocks(|body|, s.blockSize), g)
    ensures g >= s.code.k <==> Readable(s, body, attrs, drives, 0)
  {
    hide Mds, NBlocks, SlotsOf, Present;
  }

  lemma {:induction false} CountZero(flags: seq<bool>)
    ensures Count(flags) == 0 <==> forall i :: 0 <= i < |flags| ==> !flags[i]
    ensures Count(flags) == |flags| <==> forall i :: 0 <= i < |flags| ==> flags[i]
  {
    if flags != [] {
      CountZero(flags[1..]);
      assert forall i :: 0 <= i < |flags| ==> flags[i] == if i == 0 then flags[0] else flags[1..][i - 1];
    }
  }

  lemma {:induction false} CountOrder(a: seq<bool>, b: seq<bool>)
    requires |a| == |b| && forall i :: 0 <= i < |a| && a[i] ==> b[i]
    ensures Count(a) <= Count(b)
  {
    if a != [] {
      CountOrder(a[1..], b[1..]);
    }
  }

  lemma {:induction false} CountNegated(flags: seq<bool>)
    ensures Count(Negated(flags)) == |flags| - Count(flags)
  {
    if flags != [] {
      assert Negated(flags)[1..] == Negated(flags[1..]);
      CountNegated(flags[1..]);
    }
  }

  // ---------------------------------------------------------------------------
  // Steps of writing, scanning and rebuilding
  // ---------------------------------------------------------------------------

  /** The writers and digests after `b` blocks. */
  ghost predicate Progress<D>(s: Setup<D>, body: seq<Byte>, faults: seq<Faults>, writers: seq<Option<seq<Byte>>>, checksums: seq<seq<D>>, b: nat)
    requires Proper(s) && b <= NBlocks(|body|, s.blockSize)
  {
    && |faults| == |writers| == |checksums| == s.code.N()
    && forall d :: 0 <= d < |faults| ==>
         && writers[d] == (if Streamed(faults[d], b) then Some(Stream(s, body, d, b)) else None)
         && checksums[d] == Digests(s, body, d, b)
  }

  lemma MetaShape<D>(s: Setup<D>, body: seq<Byte>, attrs: Attributes)
    requires Proper(s)
    ensures var meta := MetaOf(s, body, attrs); meta.storedSize == |body| && meta.blockSize == s.blockSize
  {
  }

  /** The slots read at the running offset are those of the layout. */
  lemma LoadedSlots<D>(s: Setup<D>, body: seq<Byte>, attrs: Attributes, drives: seq<Drive<D>>, b: nat)
    requires Proper(s) && b < NBlocks(|body|, s.blockSize)
    ensures ReadSlots(s.digest, MetaOf(s, body, attrs).checksums, drives, Offset(s.code.k, |body|, s.blockSize, b),
                      ShardLen(s.code.k, BlockLen(|body|, s.blockSize, b)), b) == SlotsOf(s, body, attrs, drives, b)
  {
  }

  lemma StreamStart<D>(s: Setup<D>, body: seq<Byte>, d: nat)
    requires Proper(s) && d < s.code.N()
    ensures Stream(s, body, d, 0) == []
  {
  }

  /** Mark the drives whose shard is missing. */
  method MarkMissing(bad: seq<bool>, slots: seq<Option<Shard>>) returns (r: seq<bool>)
    requires |bad| == |slots|
    ensures |r| == |bad| && forall d :: 0 <= d < |r| ==> r[d] == (bad[d] || slots[d].None?)
  {
    r := bad;
    for d := 0 to |slots|
      invariant |r| == |bad|
      invariant forall e :: 0 <= e < d ==> r[e] == (bad[e] || slots[e].None?)
      invariant forall e :: d <= e < |r| ==> r[e] == bad[e]
    {
      if slots[d].None? { r := r[d := true]; }
    }
  }

  lemma {:induction false} PresentNegated(bad: seq<bool>, slots: seq<Option<Shard>>)
    requires |bad| == |slots| && forall d :: 0 <= d < |bad| ==> (slots[d].Some? <==> !bad[d])
    ensures Present(slots) == Count(Negated(bad))
  {
    if bad != [] {
      assert Negated(bad)[1..] == Negated(bad[1..]);
      PresentNegated(bad[1..], slots[1..]);
    }
  }

  /** The slots of the good drives rebuild a block exactly when there are K of them. */
  lemma GoodSlots<D>(s: Setup<D>, body: seq<Byte>, attrs: Attributes, drives: seq<Drive<D>>, bad: seq<bool>, slots: seq<Option<Shard>>, b: nat)
    requires Proper(s) && |drives| == s.code.N() && b < NBlocks(|body|, s.blockSize)
    requires bad == BadParts(s, body, attrs, drives) && |slots| == |drives|
    requires forall d :: 0 <= d < |drives| ==> slots[d] == if bad[d] then None else SlotsOf(s, body, attrs, drives, b)[d]
    ensures Rebuilt(s.code, slots, BlockLen(|body|, s.blockSize, b)) ==
              if Count(Negated(bad)) >= s.code.k then Success(Block(body, s.blockSize, b)) else Failure(TooManyMissing)
  {
    hide Mds, NBlocks, BlockLen, ShardLen, Rebuilt, Shards;
    ValidShardsAreOriginal(s, body, attrs, drives, b);
    RoundTrip(s.code, Block(body, s.blockSize, b), slots);
    PresentNegated(bad, slots);
  }

  lemma StartState<D>(s: Setup<D>, body: seq<Byte>, faults: seq<Faults>, writers: seq<Option<seq<Byte>>>, checksums: seq<seq<D>>)
    requires Proper(s) && |faults| == |writers| == |checksums| == s.code.N()
    requires forall d :: 0 <= d < |faults| ==> checksums[d] == [] && writers[d] == if faults[d].createOk then Some([]) else None
    ensures Progress(s, body, faults, writers, checksums, 0)
  {
  }

  /** The block just read is the next block of the layout. */
  lemma NextBlock(body: seq<Byte>, bs: nat, b: nat, block: seq<Byte>)
    requires bs >= 1 && b <= NBlocks(|body|, bs) && b * bs <= |body|
    requires |block| == (if |body| - b * bs < bs then |body| - b * bs else bs) && block == body[b * bs..b * bs + |block|]
    requires |block| > 0 || b == 0
    ensures b < NBlocks(|body|, bs) && block == Block(body, bs, b)
    ensures if |block| < bs then b + 1 == NBlocks(|body|, bs) else (b + 1) * bs <= |body|
  {
    var n := NBlocks(|body|, bs);
    assert b != n;
    BlockFits(|body|, bs, b);
    assert (b + 1) * bs == b * bs + bs;
  }

  lemma BlocksDone(body: seq<Byte>, bs: nat, b: nat)
    requires bs >= 1 && 0 < b <= NBlocks(|body|, bs) && b * bs == |body|
    ensures b == NBlocks(|body|, bs)
  {
    MulMono(1, b, bs);
    if b < NBlocks(|body|, bs) {
      BlockFits(|body|, bs, b);
    }
  }

  lemma StreamGrows<D>(s: Setup<D>, body: seq<Byte>, d: nat, b: nat)
    requires Proper(s) && b < NBlocks(|body|, s.blockSize) && d < s.code.N()
    ensures Stream(s, body, d, b + 1) == Stream(s, body, d, b) + ShardAt(s, body, b, d)
  {
    hide Mds, NBlocks, BlockLen, ShardLen, Shards;
    var col := Column(s, body, d);
    assert col[..b + 1][..b] == col[..b];
  }

  /** One more block on every live writer. */
  lemma AppendProgress<D>(s: Setup<D>, body: seq<Byte>, faults: seq<Faults>, w: seq<Option<seq<Byte>>>, c: seq<seq<D>>,
                          w': seq<Option<seq<Byte>>>, c': seq<seq<D>>, b: nat)
    requires Proper(s) && b < NBlocks(|body|, s.blockSize) && Progress(s, body, faults, w, c, b)
    requires |w'| == |c'| == |w| && |Shards(s.code, Block(body, s.blockSize, b))| == |w|
    requires forall d :: 0 <= d < |w| ==>
               && c'[d] == c[d] + [s.digest(Shards(s.code, Block(body, s.blockSize, b))[d])]
               && w'[d] == (if w[d].Some? && faults[d].failAt != Some(b) then Some(w[d].value + Shards(s.code, Block(body, s.blockSize, b))[d]) else None)
    ensures Progress(s, body, faults, w', c', b + 1)
  {
    hide Mds, NBlocks, BlockLen, ShardLen, Shards, Join;
    forall d | 0 <= d < |w|
      ensures w'[d] == (if Streamed(faults[d], b + 1) then Some(Stream(s, body, d, b + 1)) else None)
      ensures c'[d] == Digests(s, body, d, b + 1)
    {
      StreamGrows(s, body, d, b);
    }
  }

  lemma ProgressMeta<D>(s: Setup<D>, body: seq<Byte>, faults: seq<Faults>, writers: seq<Option<seq<Byte>>>, checksums: seq<seq<D>>, attrs: Attributes)
    requires Proper(s) && Progress(s, body, faults, writers, checksums, NBlocks(|body|, s.blockSize))
    ensures XlMeta(s.code.k, s.code.m, s.blockSize, |body|, attrs, checksums) == MetaOf(s, body, attrs)
  {
  }

  /** Without an error the drives are the healed ones. */
  lemma HealWithoutError<D>(s: Setup<D>, body: seq<Byte>, attrs: Attributes, drives: seq<Drive<D>>, faults: seq<RepairFaults>)
    requires Proper(s) && |drives| == |faults| == s.code.N()
    requires Installs(faults, BadParts(s, body, attrs, drives), BadMetas(drives))
    ensures AfterHeal(s, body, attrs, drives, faults) == HealedDrives(s, body, attrs, drives)
  {
    hide Mds, NBlocks, FullStream, SlotsOf, Verifies, MetaOf;
    var bad, badMeta := BadParts(s, body, attrs, drives), BadMetas(drives);
    var after, healed := AfterHeal(s, body, attrs, drives, faults), HealedDrives(s, body, attrs, drives);
    forall d | 0 <= d < |drives| ensures after[d] == healed[d] {
      assert !PartFails(faults, bad)[d] && !MetaFails(faults, Either(bad, badMeta))[d];
    }
  }

  /** The drives the installation leaves are those of the heal. */
  lemma AfterInstall<D>(s: Setup<D>, body: seq<Byte>, attrs: Attributes, drives: seq<Drive<D>>, faults: seq<RepairFaults>, now: seq<Drive<D>>)
    requires Proper(s) && |drives| == |faults| == |now| == s.code.N()
    requires var bad, badMeta := BadParts(s, body, attrs, drives), BadMetas(drives);
             forall d :: 0 <= d < |now| ==>
               now[d] == Installed(drives[d], faults[d], bad[d], badMeta[d], if bad[d] then FullStream(s, body, d) else [], MetaOf(s, body, attrs), d,
                                   PartStop(faults, bad), MetaStop(faults, Either(bad, badMeta)))
    ensures now == AfterHeal(s, body, attrs, drives, faults)
  {
    hide Mds, NBlocks, FullStream, SlotsOf, Verifies, MetaOf;
  }

  lemma NothingToStage(bad: seq<bool>, faults: seq<RepairFaults>)
    requires |bad| == |faults|
    ensures Count(bad) == 0 ==> Stages(faults, bad)
  {
    CountZero(bad);
  }

  // ---------------------------------------------------------------------------
  // The store
  // ---------------------------------------------------------------------------

  class ErasureStore<D(==)> {
    const setup: Setup<D>
    var drives: seq<Drive<D>>

    constructor (setup: Setup<D>, drives: seq<Drive<D>>)
      ensures this.setup == setup && this.drives == drives
    {
      this.setup := setup;
      this.drives := drives;
    }

    /** Append one block's shards to the live writers; record every digest, live or not. */
    method AppendBlock(shards: seq<Shard>, b: nat, faults: seq<Faults>, writers: seq<Option<seq<Byte>>>, checksums: seq<seq<D>>)
      returns (writers': seq<Option<seq<Byte>>>, checksums': seq<seq<D>>)
      requires |faults| == |shards| == |writers| == |checksums|
      ensures |writers'| == |checksums'| == |shards|
      ensures forall d :: 0 <= d < |shards| ==>
                && checksums'[d] == checksums[d] + [setup.digest(shards[d])]
                && writers'[d] == (if writers[d].Some? && faults[d].failAt != Some(b) then Some(writers[d].value + shards[d]) else None)
    {
      writers', checksums' := writers, checksums;
      for d := 0 to |shards|
        invariant |writers'| == |checksums'| == |shards|
        invariant forall e :: 0 <= e < d ==>
                    && checksums'[e] == checksums[e] + [setup.digest(shards[e])]
                    && writers'[e] == (if writers[e].Some? && faults[e].failAt != Some(b) then Some(writers[e].value + shards[e]) else None)
        invariant forall e :: d <= e < |shards| ==> checksums'[e] == checksums[e] && writers'[e] == writers[e]
      {
        checksums' := checksums'[d := checksums'[d] + [setup.digest(shards[d])]];
        if writers'[d].Some? {
          writers' := writers'[d := if faults[d].failAt == Some(b) then None else Some(writers'[d].value + shards[d])];
        }
      }
    }

    /** Close the writers, rename the parts into place and write the metadata, drive by drive. */
    method Publish(writers: seq<Option<seq<Byte>>>, meta: XlMeta<D>, faults: seq<Faults>, ghost n: nat, ghost streams: seq<seq<Byte>>)
      returns (ok: seq<bool>)
      requires |drives| == |faults| == |writers| == |streams|
      requires forall d :: 0 <= d < |faults| ==> writers[d] == if Streamed(faults[d], n) then Some(streams[d]) else None
      modifies this
      ensures |drives| == |faults|
      ensures forall d :: 0 <= d < |faults| ==> drives[d] == AfterWrite(old(drives)[d], faults[d], n, streams[d], meta)
      ensures ok == Flags(faults, n)
    {
      ok := seq(|faults|, _ => false);
      for d := 0 to |faults|
        invariant |ok| == |drives| == |faults|
        invariant forall e :: 0 <= e < d ==>
                    && drives[e] == AfterWrite(old(drives)[e], faults[e], n, streams[e], meta)
                    && ok[e] == Confirmed(faults[e], n)
        invariant forall e :: d <= e < |faults| ==> drives[e] == old(drives)[e]
      {
        var f, drive, done := faults[d], drives[d], false;
        if writers[d].Some? && f.closeOk {
          if f.renameOk || f.renameLands {
            drive := drive.(part := writers[d]);
          }
          if f.renameOk {
            drive := drive.(meta := AfterWriting(drive.meta, f.meta, meta));
            done := f.meta.Acked?;
          }
        }
        drives, ok := drives[d := drive], ok[d := done];
      }
    }

    /** Roll back: remove the object directory on every drive that can be reached. */
    method RollBack(faults: seq<Faults>)
      requires |drives| == |faults|
      modifies this
      ensures |drives| == |faults|
      ensures forall d :: 0 <= d < |faults| ==> drives[d] == if faults[d].removeOk then Drive(None, None) else old(drives)[d]
    {
      for d := 0 to |faults|
        invariant |drives| == |faults|
        invariant forall e :: 0 <= e < d ==> drives[e] == if faults[e].removeOk then Drive(None, None) else old(drives)[e]
        invariant forall e :: d <= e < |faults| ==> drives[e] == old(drives)[e]
      {
        if faults[d].removeOk {
          drives := drives[d := Drive(None, None)];
        }
      }
    }

    /** Read the body block by block, encode each block and append its shards. */
    method StreamBody(src: Streams.Reader<Byte>, faults: seq<Faults>)
      returns (stored: nat, writers: seq<Option<seq<Byte>>>, checksums: seq<seq<D>>, complete: bool)
      requires Proper(setup) && |faults| == setup.code.N()
      modifies src`rest
      ensures complete <==> !src.fails
      ensures complete ==> stored == |old(src.rest)|
                           && Progress(setup, old(src.rest), faults, writers, checksums, NBlocks(stored, setup.blockSize))
    {
      ghost var body := src.rest;
      ghost var nb := NBlocks(|body|, setup.blockSize);
      var n := |faults|;
      var bs := setup.blockSize;
      writers := seq(n, d requires 0 <= d < n => if faults[d].createOk then Some([]) else None);
      checksums := seq(n, _ => []);
      stored := 0;
      var b := 0;
      StartState(setup, body, faults, writers, checksums);
      while true
        invariant stored == b * bs <= |body| && b <= nb && src.rest == body[stored..]
        invariant Progress(setup, body, faults, writers, checksums, b)
        decreases nb - b
      {
        var block := src.ReadFull(bs);
        if block.Failure? { complete := false; return; }
        var got := |block.value|;
        if got == 0 && b > 0 {
          BlocksDone(body, bs, b);
          break;
        }
        NextBlock(body, bs, b, block.value);
        stored := stored + got;
        var shards := EncodeBlock(setup.code, block.value);
        ghost var w, c := writers, checksums;
        writers, checksums := AppendBlock(shards, b, faults, writers, checksums);
        AppendProgress(setup, body, faults, w, c, writers, checksums, b);
        b := b + 1;
        if got < bs { break; }
      }
      complete := true;
    }

    /**
     * Shard a body over all drives. Under any faults and any fragmentation of the
     * body, the write succeeds if and only if at least K + 1 drives confirmed every
     * step; each drive that did holds the whole shard stream and the metadata. A write
     * below quorum leaves nothing on the drives that can be reached, a body that
     * cannot be read leaves the drives alone.
     */
    method WriteSharded(src: Streams.Reader<Byte>, attrs: Attributes, faults: seq<Faults>) returns (r: Result<(), WriteError>)
      requires Proper(setup) && |drives| == |faults| == setup.code.N()
      modifies this, src`rest
      ensures |drives| == |faults|
      ensures src.fails ==> r == Failure(ReadBody) && drives == old(drives)
      ensures !src.fails ==>
                var body, n := old(src.rest), NBlocks(|old(src.rest)|, setup.blockSize);
                var written := Count(Flags(faults, n));
                if written >= setup.code.k + 1 then
                  r == Success(())
                  && forall d :: 0 <= d < |faults| ==>
                       drives[d] == AfterWrite(old(drives)[d], faults[d], n, FullStream(setup, body, d), MetaOf(setup, body, attrs))
                else
                  r == Failure(QuorumNotMet(written))
                  && forall d :: 0 <= d < |faults| ==>
                       drives[d] == if faults[d].removeOk then Drive(None, None)
                                    else AfterWrite(old(drives)[d], faults[d], n, FullStream(setup, body, d), MetaOf(setup, body, attrs))
    {
      ghost var body := src.rest;
      ghost var nb := NBlocks(|body|, setup.blockSize);
      var stored, writers, checksums, complete := StreamBody(src, faults);
      if !complete { return Failure(ReadBody); }
      var meta := XlMeta(setup.code.k, setup.code.m, setup.blockSize, stored, attrs, checksums);
      ProgressMeta(setup, body, faults, writers, checksums, attrs);
      ghost var streams := seq(|faults|, d requires 0 <= d < |faults| => FullStream(setup, body, d));
      var ok := Publish(writers, meta, faults, nb, streams);
      var written := Count(ok);
      if written < setup.code.k + 1 {
        RollBack(faults);
        return Failure(QuorumNotMet(written));
      }
      r := Success(());
    }

    /** Rebuild the object block by block until one cannot be rebuilt. */
    method ReconstructInto(meta: XlMeta<D>) returns (out: seq<Byte>)
      requires setup.code.k >= 1 && meta.blockSize >= 1
      ensures out == ReadFrom(setup.code, setup.digest, meta, drives, 0)
    {
      hide ReadFrom, NBlocks, BlockLen, ShardLen, Offset, ReadSlots, Rebuilt;
      out := [];
      var nblocks := NBlocks(meta.storedSize, meta.blockSize);
      var offset := 0;
      ReadFromEnd(setup.code, setup.digest, meta, drives);
      ghost var whole := ReadFrom(setup.code, setup.digest, meta, drives, 0);
      for b := 0 to nblocks
        invariant offset == Offset(setup.code.k, meta.storedSize, meta.blockSize, b)
        invariant out + ReadFrom(setup.code, setup.digest, meta, drives, b) == whole
      {
        ReadFromStep(setup.code, setup.digest, meta, drives, b);
        var len := BlockLen(meta.storedSize, meta.blockSize, b);
        var slen := ShardLen(setup.code.k, len);
        var slots := LoadSlots(meta, offset, slen, b);
        var block := ReconstructBlock(setup.code, slots, len);
        if block.Failure? { return; }
        out := out + block.value;
        offset := offset + slen;
      }
    }

    /** Find the metadata, then rebuild by it; without any metadata there is no such key. */
    method Get() returns (r: Option<seq<Byte>>)
      requires setup.code.k >= 1 && (FirstMeta(drives).Some? ==> FirstMeta(drives).value.blockSize >= 1)
      ensures r == match FirstMeta(drives)
                   case None => None
                   case Some(meta) => Some(ReadFrom(setup.code, setup.digest, meta, drives, 0))
    {
      var meta := ReadXl();
      if meta.None? { return None; }
      var out := ReconstructInto(meta.value);
      r := Some(out);
    }

    /** Read and verify every drive's shard of one block. */
    method LoadSlots(meta: XlMeta<D>, offset: nat, slen: nat, b: nat) returns (slots: seq<Option<Shard>>)
      ensures slots == ReadSlots(setup.digest, meta.checksums, drives, offset, slen, b)
    {
      slots := [];
      for d := 0 to |drives|
        invariant |slots| == d
        invariant forall e :: 0 <= e < d ==> slots[e] == ReadShard(setup.digest, meta.checksums, drives[e], offset, slen, e, b)
      {
        var shard: Option<Shard> := None;
        var buf := ReadAt(drives[d], offset, slen);
        if buf.Some? && d < |meta.checksums| && b < |meta.checksums[d]| && meta.checksums[d][b] == setup.digest(buf.value) {
          shard := buf;
        }
        slots := slots + [shard];
      }
    }

    /** The first metadata copy that can be read. */
    method ReadXl() returns (meta: Option<XlMeta<D>>)
      ensures meta == FirstMeta(drives)
    {
      assert drives[0..] == drives;
      for d := 0 to |drives|
        invariant FirstMeta(drives) == FirstMeta(drives[d..])
      {
        assert drives[d..][1..] == drives[d + 1..];
        if drives[d].meta.Some? { return drives[d].meta; }
      }
      meta := None;
    }

    /** First pass of a heal: verify every shard of every block, note bad drives and the weakest block. */
    method Scan(meta: XlMeta<D>, ghost body: seq<Byte>, ghost attrs: Attributes) returns (bad: seq<bool>, minGood: nat)
      requires Proper(setup) && meta == MetaOf(setup, body, attrs)
      ensures bad == BadParts(setup, body, attrs, drives)
      ensures Weakest(setup, body, attrs, drives, NBlocks(|body|, setup.blockSize), minGood)
    {
      hide Mds, NBlocks, BlockLen, ShardLen, SlotsOf, ReadSlots, MetaOf, Present, Weakest;
      ProperShape(setup);
      MetaShape(setup, body, attrs);
      bad := seq(|drives|, _ => false);
      var nblocks := NBlocks(meta.storedSize, meta.blockSize);
      var weakest: Option<nat> := None;
      var offset := 0;
      for b := 0 to nblocks
        invariant |bad| == |drives|
        invariant offset == Offset(setup.code.k, meta.storedSize, meta.blockSize, b)
        invariant forall d :: 0 <= d < |bad| ==> (bad[d] <==> exists c :: 0 <= c < b && SlotsOf(setup, body, attrs, drives, c)[d].None?)
        invariant weakest.None? <==> b == 0
        invariant weakest.Some? ==> Weakest(setup, body, attrs, drives, b, weakest.value)
      {
        var slen := ShardLen(setup.code.k, BlockLen(meta.storedSize, meta.blockSize, b));
        var slots := LoadSlots(meta, offset, slen, b);
        LoadedSlots(setup, body, attrs, drives, b);
        var good := Present(slots);
        bad := MarkMissing(bad, slots);
        WeakestGrows(setup, body, attrs, drives, b, weakest, good);
        weakest := Some(if weakest.None? || good < weakest.value then good else weakest.value);
        offset := offset + slen;
      }
      minGood := weakest.value;
    }

    /** Second pass: rebuild every block from the good drives and encode the shards of the bad ones. */
    method Rebuild(meta: XlMeta<D>, bad: seq<bool>, ghost body: seq<Byte>, ghost attrs: Attributes)
      returns (out: Option<seq<seq<Byte>>>)
      requires Proper(setup) && |drives| == setup.code.N() && meta == MetaOf(setup, body, attrs)
      requires bad == BadParts(setup, body, attrs, drives)
      ensures out.None? <==> Count(Negated(bad)) < setup.code.k
      ensures out.Some? ==> |out.value| == |drives|
                            && forall d :: 0 <= d < |drives| && bad[d] ==> out.value[d] == FullStream(setup, body, d)
    {
      hide Mds, NBlocks, BlockLen, ShardLen, Rebuilt, Shards, SlotsOf, Verifies, Stream, ReadSlots, MetaOf, Count;
      ProperShape(setup);
      MetaShape(setup, body, attrs);
      forall d | 0 <= d < |drives| ensures Stream(setup, body, d, 0) == [] { StreamStart(setup, body, d); }
      var n := |drives|;
      var streams: seq<seq<Byte>> := seq(n, _ => []);
      var nblocks := NBlocks(meta.storedSize, meta.blockSize);
      var offset := 0;
      for b := 0 to nblocks
        invariant |streams| == |drives|
        invariant offset == Offset(setup.code.k, meta.storedSize, meta.blockSize, b)
        invariant forall d :: 0 <= d < |drives| && bad[d] ==> streams[d] == Stream(setup, body, d, b)
        invariant b > 0 ==> Count(Negated(bad)) >= setup.code.k
      {
        var len := BlockLen(meta.storedSize, meta.blockSize, b);
        var slen := ShardLen(setup.code.k, len);
        var loaded := LoadSlots(meta, offset, slen, b);
        LoadedSlots(setup, body, attrs, drives, b);
        var slots := seq(n, d requires 0 <= d < n => if bad[d] then None else loaded[d]);
        GoodSlots(setup, body, attrs, drives, bad, slots, b);
        var block := ReconstructBlock(setup.code, slots, len);
        if block.Failure? { return None; }
        var reshards := EncodeBlock(setup.code, block.value);
        streams := seq(n, d requires 0 <= d < n => if bad[d] then streams[d] + reshards[d] else streams[d]);
        forall d | 0 <= d < |drives| ensures Stream(setup, body, d, b + 1) == Stream(setup, body, d, b) + ShardAt(setup, body, b, d) {
          StreamGrows(setup, body, d, b);
        }
        offset := offset + slen;
      }
      out := Some(streams);
    }

    /** Put the rebuilt parts in place, then rewrite the metadata of every drive that was damaged; stop at the first error. */
    method Install(meta: XlMeta<D>, bad: seq<bool>, badMeta: seq<bool>, rebuilt: seq<seq<Byte>>, faults: seq<RepairFaults>)
      returns (ok: bool)
      requires |bad| == |badMeta| == |drives| == |faults| && forall d :: 0 <= d < |drives| && bad[d] ==> d < |rebuilt|
      modifies this
      ensures ok <==> Installs(faults, bad, badMeta)
      ensures |drives| == |bad|
      ensures forall d :: 0 <= d < |drives| ==>
                drives[d] == Installed(old(drives)[d], faults[d], bad[d], badMeta[d], if bad[d] then rebuilt[d] else [], meta, d,
                                       PartStop(faults, bad), MetaStop(faults, Either(bad, badMeta)))
    {
      ghost var partStop, metaStop := PartStop(faults, bad), MetaStop(faults, Either(bad, badMeta));
      ghost var partFails, metaFails := PartFails(faults, bad), MetaFails(faults, Either(bad, badMeta));
      for d := 0 to |bad|
        invariant |drives| == |bad|
        invariant partStop.Some? ==> d <= partStop.value
        invariant forall e :: 0 <= e < d ==> drives[e] == Drive(if bad[e] then Some(rebuilt[e]) else old(drives)[e].part, old(drives)[e].meta)
        invariant forall e :: d <= e < |drives| ==> drives[e] == old(drives)[e]
      {
        assert partFails[d] == (bad[d] && !(faults[d].closeOk && faults[d].renameOk));
        if bad[d] {
          if !faults[d].closeOk { return false; }
          if faults[d].renameOk || faults[d].renameLands {
            drives := drives[d := drives[d].(part := Some(rebuilt[d]))];
          }
          if !faults[d].renameOk { return false; }
        }
      }
      for d := 0 to |bad|
        invariant |drives| == |bad| && partStop.None?
        invariant metaStop.Some? ==> d <= metaStop.value
        invariant forall e :: 0 <= e < |drives| ==>
                    drives[e] == Drive(if bad[e] then Some(rebuilt[e]) else old(drives)[e].part,
                                       if e < d && (bad[e] || badMeta[e]) then Some(meta) else old(drives)[e].meta)
      {
        assert metaFails[d] == ((bad[d] || badMeta[d]) && !faults[d].meta.Acked?);
        if bad[d] || badMeta[d] {
          drives := drives[d := drives[d].(meta := AfterWriting(drives[d].meta, faults[d].meta, meta))];
          if !faults[d].meta.Acked? { return false; }
        }
      }
      ok := true;
    }

    /** Whether the rebuilt streams can be written aside on every bad drive. */
    method Stage(bad: seq<bool>, faults: seq<RepairFaults>) returns (ok: bool)
      requires |bad| == |faults|
      ensures ok <==> Stages(faults, bad)
    {
      for d := 0 to |bad|
        invariant forall e :: 0 <= e < d && bad[e] ==> faults[e].createOk && faults[e].writeOk
      {
        if bad[d] && !(faults[d].createOk && faults[d].writeOk) { return false; }
      }
      ok := true;
    }

    /**
     * Inspect an object and repair it, going by the first metadata copy. When that copy
     * is the object's, the outcome and the drives afterwards are exactly these, for
     * any way the steps of the repair may fail.
     */
    method HealObject(dryRun: bool, faults: seq<RepairFaults>, ghost body: seq<Byte>, ghost attrs: Attributes) returns (r: Option<HealOutcome>)
      requires Proper(setup) && GoesBy(setup, body, attrs, drives) && |faults| == |drives|
      modifies this
      ensures var result := HealResult(setup, body, attrs, old(drives), dryRun);
              var bad := BadParts(setup, body, attrs, old(drives));
              if !result.1 then r == result.0 && drives == old(drives)
              else if !Stages(faults, bad) then r == None && drives == old(drives)
              else
                && r == (if Installs(faults, bad, BadMetas(old(drives))) then result.0 else None)
                && drives == AfterHeal(setup, body, attrs, old(drives), faults)
    {
      hide Mds, Proper, NBlocks, FullStream, SlotsOf, Verifies, Readable, MetaOf, FirstMeta, HealedDrives;
      hide Installs, Stages, Weakest, BadParts, BadMetas, Either, Negated;
      ProperShape(setup);
      var first := ReadXl();
      var badMeta := BadMetas(drives);
      CountZero(badMeta);
      var _ := FirstMetaAt(drives);
      if first.None? { return Some(Unrecoverable); }
      var meta := first.value;
      var bad, minGood := Scan(meta, body, attrs);
      WeakestDecides(setup, body, attrs, drives, minGood);
      CountZero(bad);
      CountZero(Either(bad, badMeta));
      var needPart, needMeta := Count(bad) > 0, Count(badMeta) > 0;
      if !needPart && !needMeta { return Some(Healthy); }
      if needPart && minGood < setup.code.k { return Some(Unrecoverable); }
      var rewritten := Count(Either(bad, badMeta));
      if dryRun { return Some(Healed(rewritten)); }
      var rebuilt: Option<seq<seq<Byte>>> := None;
      NothingToStage(bad, faults);
      if needPart {
        rebuilt := Rebuild(meta, bad, body, attrs);
        var staged := Stage(bad, faults);
        if rebuilt.None? || !staged { return None; }
      }
      ghost var after := AfterHeal(setup, body, attrs, drives, faults);
      var streams := rebuilt.GetOr([]);
      forall d | 0 <= d < |drives| ensures bad[d] ==> d < |streams| && streams[d] == FullStream(setup, body, d) {}
      var ok := Install(meta, bad, badMeta, streams, faults);
      AfterInstall(setup, body, attrs, old(drives), faults, drives);
      r := if ok then Some(Healed(rewritten)) else None;
    }
  }

  // ---------------------------------------------------------------------------
  // Durability
  // ---------------------------------------------------------------------------

  /** Drives that keep their part file keep verifying it. */
  lemma StreamKept<D>(s: Setup<D>, body: seq<Byte>, attrs: Attributes, drives: seq<Drive<D>>, d: nat)
    requires Proper(s) && |drives| == s.code.N() && d < |drives| && drives[d].part == Some(FullStream(s, body, d))
    ensures Verifies(s, body, attrs, drives, d)
  {
    VerifiesIffStream(s, body, attrs, drives, d);
  }

  /** Later metadata copies are those of `origin`, as far as they are left, and one is. */
  ghost predicate MetaLeft<D>(origin: seq<Drive<D>>, later: seq<Drive<D>>) {
    && |origin| == |later|
    && (forall d :: 0 <= d < |later| && later[d].meta.Some? ==> later[d].meta == origin[d].meta)
    && (exists d :: 0 <= d < |later| && later[d].meta.Some?)
  }

  /** A reader then finds the object's metadata, and reads the object exactly as far as valid shards are left. */
  lemma ReadByFirst<D>(s: Setup<D>, body: seq<Byte>, attrs: Attributes, origin: seq<Drive<D>>, later: seq<Drive<D>>)
    requires Proper(s) && Agreeing(s, body, attrs, origin) && MetaLeft(origin, later)
    ensures FirstMeta(later) == Some(MetaOf(s, body, attrs))
    ensures ReadFrom(s.code, s.digest, FirstMeta(later).value, later, 0) == body <==> body == [] || Readable(s, body, attrs, later, 0)
  {
    hide Mds, MetaOf, ReadFrom, Readable;
    var _ := FirstMetaAt(later);
    ReadsNeverWrong(s, body, attrs, later);
  }

  /**
   * Quorum put, then get: when the write of a fresh key succeeds, at least K + 1 drives
   * hold the whole shard stream and the metadata, and every metadata copy there is is
   * the object's. After any later losses and corruptions of part files, and losses of
   * metadata that leave a copy, a reader finds that metadata and reads back exactly
   * the stored bytes if and only if every block keeps K valid shards.
   */
  lemma PutThenGet<D>(s: Setup<D>, body: seq<Byte>, attrs: Attributes, faults: seq<Faults>, after: seq<Drive<D>>, later: seq<Drive<D>>)
    requires Proper(s) && |faults| == |after| == s.code.N()
    requires forall d :: 0 <= d < |faults| ==>
               after[d] == AfterWrite(Drive(None, None), faults[d], NBlocks(|body|, s.blockSize), FullStream(s, body, d), MetaOf(s, body, attrs))
    requires Count(Flags(faults, NBlocks(|body|, s.blockSize))) >= s.code.k + 1
    requires MetaLeft(after, later)
    ensures forall d :: 0 <= d < |faults| && Flags(faults, NBlocks(|body|, s.blockSize))[d] ==> Complete(s, body, attrs, after[d], d)
    ensures Agreeing(s, body, attrs, after)
    ensures FirstMeta(later) == Some(MetaOf(s, body, attrs))
    ensures ReadFrom(s.code, s.digest, FirstMeta(later).value, later, 0) == body <==> body == [] || Readable(s, body, attrs, later, 0)
  {
    hide Mds, NBlocks, FullStream, MetaOf, ReadFrom, Readable, FirstMeta;
    ReadByFirst(s, body, attrs, after, later);
  }

  /** In particular, K of the drives that confirmed the write are enough, whatever has become of the part files of the others. */
  lemma ConfirmedDrivesSuffice<D>(s: Setup<D>, body: seq<Byte>, attrs: Attributes, faults: seq<Faults>, after: seq<Drive<D>>,
                                  later: seq<Drive<D>>, kept: seq<bool>)
    requires Proper(s) && |faults| == |after| == |later| == |kept| == s.code.N()
    requires forall d :: 0 <= d < |faults| ==>
               after[d] == AfterWrite(Drive(None, None), faults[d], NBlocks(|body|, s.blockSize), FullStream(s, body, d), MetaOf(s, body, attrs))
    requires forall d :: 0 <= d < |later| && later[d].meta.Some? ==> later[d].meta == after[d].meta
    requires forall d :: 0 <= d < |kept| && kept[d] ==> Flags(faults, NBlocks(|body|, s.blockSize))[d] && later[d] == after[d]
    requires Count(kept) >= s.code.k
    ensures FirstMeta(later) == Some(MetaOf(s, body, attrs))
    ensures ReadFrom(s.code, s.digest, FirstMeta(later).value, later, 0) == body
  {
    hide Mds, NBlocks, FullStream, MetaOf, ReadFrom, FirstMeta;
    ProperShape(s);
    CountZero(kept);
    forall d | 0 <= d < |kept| && kept[d] ensures Verifies(s, body, attrs, later, d) {
      StreamKept(s, body, attrs, later, d);
    }
    VerifiedDrivesSuffice(s, body, attrs, later, kept);
    ReadByFirst(s, body, attrs, after, later);
  }

  /**
   * The drives a heal left behind: every part verifies, every drive has metadata, a
   * reader goes by the object's, and a second heal, dry or not, has nothing to do.
   */
  lemma HealedVerify<D>(s: Setup<D>, body: seq<Byte>, attrs: Attributes, drives: seq<Drive<D>>, dryRun: bool)
    requires Proper(s) && GoesBy(s, body, attrs, drives)
    ensures var healed := HealedDrives(s, body, attrs, drives);
            && (forall d :: 0 <= d < |healed| ==> Verifies(s, body, attrs, healed, d) && healed[d].meta.Some?)
            && FirstMeta(healed) == Some(MetaOf(s, body, attrs)) && GoesBy(s, body, attrs, healed)
            && HealResult(s, body, attrs, healed, dryRun) == (Some(Healthy), false)
            && (Agreeing(s, body, attrs, drives) ==> Agreeing(s, body, attrs, healed))
  {
    hide Mds, NBlocks, FullStream, SlotsOf, Verifies, MetaOf;
    ProperShape(s);
    var healed := HealedDrives(s, body, attrs, drives);
    forall d | 0 <= d < |healed| ensures Verifies(s, body, attrs, healed, d) {
      VerifiesIffStream(s, body, attrs, drives, d);
      VerifiesIffStream(s, body, attrs, healed, d);
    }
    assert healed[0].meta == Some(MetaOf(s, body, attrs));
    CountZero(BadMetas(healed));
    CountZero(Either(BadParts(s, body, attrs, healed), BadMetas(healed)));
  }

  /**
   * A heal leaves on a drive exactly the stream and metadata of the write if and only if
   * the drive did not hold a part that starts with the whole stream and goes on: such a
   * part verifies, and is kept with what follows.
   */
  lemma HealedExactIff<D>(s: Setup<D>, body: seq<Byte>, attrs: Attributes, drives: seq<Drive<D>>, d: nat)
    requires Proper(s) && Agreeing(s, body, attrs, drives) && d < |drives|
    ensures Complete(s, body, attrs, HealedDrives(s, body, attrs, drives)[d], d) <==>
              !(drives[d].part.Some? && FullStream(s, body, d) < drives[d].part.value)
  {
    hide Mds, NBlocks, FullStream, SlotsOf, Verifies, MetaOf;
    VerifiesIffStream(s, body, attrs, drives, d);
    var stream := FullStream(s, body, d);
    if drives[d].part.Some? && stream <= drives[d].part.value {
      var part := drives[d].part.value;
      assert part == stream + part[|stream|..];
      assert stream < part <==> part != stream;
    }
  }

  lemma {:induction false} PresentOrder(a: seq<Option<Shard>>, b: seq<Option<Shard>>)
    requires |a| == |b| && forall i :: 0 <= i < |a| && a[i].Some? ==> b[i].Some?
    ensures Present(a) <= Present(b)
  {
    if a != [] {
      PresentOrder(a[1..], b[1..]);
    }
  }

  lemma SamePartSlot<D>(s: Setup<D>, body: seq<Byte>, attrs: Attributes, a: seq<Drive<D>>, b: seq<Drive<D>>, c: nat, d: nat)
    requires Proper(s) && c < NBlocks(|body|, s.blockSize) && |a| == |b| && d < |a| && a[d].part == b[d].part
    ensures SlotsOf(s, body, attrs, a, c)[d] == SlotsOf(s, body, attrs, b, c)[d]
  {
    hide Mds, NBlocks, MetaOf, ShardLen, Offset;
  }

  /**
   * What an interrupted heal does to the part files: nothing bad. Drives that verified
   * still do, and every block has at least the valid shards it had.
   */
  lemma InterruptedParts<D>(s: Setup<D>, body: seq<Byte>, attrs: Attributes, drives: seq<Drive<D>>, faults: seq<RepairFaults>)
    requires Proper(s) && |drives| == |faults| == s.code.N()
    ensures var now := AfterHeal(s, body, attrs, drives, faults);
            && (forall d :: 0 <= d < |drives| && Verifies(s, body, attrs, drives, d) ==> Verifies(s, body, attrs, now, d))
            && (Readable(s, body, attrs, drives, 0) ==> Readable(s, body, attrs, now, 0))
  {
    hide Mds, NBlocks, FullStream, SlotsOf, Present, MetaOf, AfterHeal;
    var now := AfterHeal(s, body, attrs, drives, faults);
    forall c, d | 0 <= c < NBlocks(|body|, s.blockSize) && 0 <= d < |drives| && SlotsOf(s, body, attrs, drives, c)[d].Some?
      ensures SlotsOf(s, body, attrs, now, c)[d].Some?
    {
      InterruptedSlot(s, body, attrs, drives, faults, c, d);
    }
    forall c | 0 <= c < NBlocks(|body|, s.blockSize)
      ensures Present(SlotsOf(s, body, attrs, drives, c)) <= Present(SlotsOf(s, body, attrs, now, c))
    {
      PresentOrder(SlotsOf(s, body, attrs, drives, c), SlotsOf(s, body, attrs, now, c));
    }
  }

  lemma InterruptedSlot<D>(s: Setup<D>, body: seq<Byte>, attrs: Attributes, drives: seq<Drive<D>>, faults: seq<RepairFaults>, c: nat, d: nat)
    requires Proper(s) && |drives| == |faults| == s.code.N() && c < NBlocks(|body|, s.blockSize) && d < |drives|
    requires SlotsOf(s, body, attrs, drives, c)[d].Some?
    ensures SlotsOf(s, body, attrs, AfterHeal(s, body, attrs, drives, faults), c)[d].Some?
  {
    hide Mds, NBlocks, FullStream, SlotsOf, MetaOf, Verifies;
    var now := AfterHeal(s, body, attrs, drives, faults);
    if now[d].part == drives[d].part {
      SamePartSlot(s, body, attrs, drives, now, c, d);
    } else {
      assert now[d].part == Some(FullStream(s, body, d));
      StreamVerifies(s, body, attrs, now, d, c);
    }
  }

  /** The heal stopped at the metadata of drive 0, which it tore. */
  ghost predicate TearsFirst<D>(s: Setup<D>, body: seq<Byte>, attrs: Attributes, drives: seq<Drive<D>>, faults: seq<RepairFaults>)
    requires Proper(s) && |drives| == |faults| == s.code.N()
  {
    var bad := BadParts(s, body, attrs, drives);
    PartStop(faults, bad).None? && |drives| > 0 && (bad[0] || drives[0].meta.None?) && faults[0].meta.Torn?
  }

  /**
   * What it does to the metadata a reader goes by: nothing, unless it tears the copy of
   * drive 0; then a reader goes by the first copy on the other drives. So a heal loses
   * the object, for readers and later heals, if and only if drive 0 had the only copy,
   * its part was bad, and rewriting that copy tore it.
   */
  lemma InterruptedMeta<D>(s: Setup<D>, body: seq<Byte>, attrs: Attributes, drives: seq<Drive<D>>, faults: seq<RepairFaults>)
    requires Proper(s) && GoesBy(s, body, attrs, drives) && |faults| == |drives| && FirstMeta(drives).Some?
    ensures var now := AfterHeal(s, body, attrs, drives, faults);
            && FirstMeta(now) == (if TearsFirst(s, body, attrs, drives, faults) then FirstMeta(drives[1..]) else FirstMeta(drives))
            && (FirstMeta(now).None? <==> TearsFirst(s, body, attrs, drives, faults) && FirstMeta(drives[1..]).None?)
            && (FirstMeta(now).None? ==> HealResult(s, body, attrs, now, false).0 == Some(Unrecoverable))
  {
    hide Mds, NBlocks, FullStream, Verifies, MetaOf, FirstMeta, HealResult;
    ProperShape(s);
    var now := AfterHeal(s, body, attrs, drives, faults);
    FirstOfAll(drives);
    FirstOfAll(now);
    if TearsFirst(s, body, attrs, drives, faults) {
      assert now[0].meta.None?;
      OnlyFirstRewritten(s, body, attrs, drives, faults);
    } else {
      FirstKept(s, body, attrs, drives, faults);
    }
    if FirstMeta(now).None? { NoMetaNoHeal(s, body, attrs, now); }
  }

  lemma FirstOfAll<D>(drives: seq<Drive<D>>)
    requires |drives| > 0
    ensures FirstMeta(drives) == if drives[0].meta.Some? then drives[0].meta else FirstMeta(drives[1..])
  {
  }

  lemma NoMetaNoHeal<D>(s: Setup<D>, body: seq<Byte>, attrs: Attributes, drives: seq<Drive<D>>)
    requires Proper(s) && FirstMeta(drives).None?
    ensures HealResult(s, body, attrs, drives, false) == (Some(Unrecoverable), false)
  {
    hide Mds, NBlocks, SlotsOf, Verifies, Readable;
    var _ := FirstMetaAt(drives);
    CountZero(BadMetas(drives));
  }

  /** When the rewrite at drive 0 tears, the other copies are as they were. */
  lemma OnlyFirstRewritten<D>(s: Setup<D>, body: seq<Byte>, attrs: Attributes, drives: seq<Drive<D>>, faults: seq<RepairFaults>)
    requires Proper(s) && |drives| == |faults| == s.code.N() && TearsFirst(s, body, attrs, drives, faults)
    ensures FirstMeta(AfterHeal(s, body, attrs, drives, faults)[1..]) == FirstMeta(drives[1..])
  {
    hide Mds, NBlocks, FullStream, Verifies, MetaOf, FirstMeta;
    var now := AfterHeal(s, body, attrs, drives, faults);
    assert MetaFails(faults, Either(BadParts(s, body, attrs, drives), BadMetas(drives)))[0];
    forall d | 1 <= d < |drives| ensures now[d].meta == drives[d].meta {}
    SameMetas(now[1..], drives[1..]);
  }

  lemma {:induction false} SameMetas<D>(a: seq<Drive<D>>, b: seq<Drive<D>>)
    requires |a| == |b| && forall d :: 0 <= d < |a| ==> a[d].meta == b[d].meta
    ensures FirstMeta(a) == FirstMeta(b)
  {
    if |a| > 0 {
      SameMetas(a[1..], b[1..]);
    }
  }

  /** Otherwise drive 0 keeps its copy, or gets the object's, or nothing before the first copy changes. */
  lemma FirstKept<D>(s: Setup<D>, body: seq<Byte>, attrs: Attributes, drives: seq<Drive<D>>, faults: seq<RepairFaults>)
    requires Proper(s) && GoesBy(s, body, attrs, drives) && |faults| == |drives| && FirstMeta(drives).Some?
    requires !TearsFirst(s, body, attrs, drives, faults)
    ensures FirstMeta(AfterHeal(s, body, attrs, drives, faults)) == FirstMeta(drives)
  {
    hide Mds, NBlocks, FullStream, Verifies, MetaOf, FirstMeta;
    ProperShape(s);
    var now, meta := AfterHeal(s, body, attrs, drives, faults), MetaOf(s, body, attrs);
    var bad, badMeta := BadParts(s, body, attrs, drives), BadMetas(drives);
    FirstOfAll(drives);
    FirstOfAll(now);
    if now[0].meta.None? {
      assert drives[0].meta.None?;
      assert PartStop(faults, bad).None? ==> MetaFails(faults, Either(bad, badMeta))[0];
      forall d | 1 <= d < |drives| ensures now[d].meta == drives[d].meta {}
      SameMetas(now[1..], drives[1..]);
    }
  }

  /**
   * Heal restores redundancy: after a repairing heal, from then on any loss or
   * corruption of M drives, metadata included, still leaves a reader finding the
   * metadata and reading back the stored bytes.
   */
  lemma HealRestores<D>(s: Setup<D>, body: seq<Byte>, attrs: Attributes, drives: seq<Drive<D>>, later: seq<Drive<D>>, lost: seq<bool>)
    requires Proper(s) && Agreeing(s, body, attrs, drives)
    requires |later| == |lost| == s.code.N() && Count(lost) <= s.code.m
    requires forall d :: 0 <= d < |lost| && !lost[d] ==> later[d] == HealedDrives(s, body, attrs, drives)[d]
    requires forall d :: 0 <= d < |lost| && lost[d] && later[d].meta.Some? ==> later[d].meta == HealedDrives(s, body, attrs, drives)[d].meta
    ensures FirstMeta(later) == Some(MetaOf(s, body, attrs))
    ensures ReadFrom(s.code, s.digest, FirstMeta(later).value, later, 0) == body
  {
    hide Mds, NBlocks, FullStream, SlotsOf, Verifies, HealedDrives, MetaOf, FirstMeta, ReadFrom;
    ProperShape(s);
    AgreeingGoesBy(s, body, attrs, drives);
    HealedVerify(s, body, attrs, drives, false);
    var healed := HealedDrives(s, body, attrs, drives);
    CountNegated(lost);
    CountZero(Negated(lost));
    forall d | 0 <= d < |later| && Negated(lost)[d] ensures Verifies(s, body, attrs, later, d) {
      VerifiesIffStream(s, body, attrs, healed, d);
      VerifiesIffStream(s, body, attrs, later, d);
    }
    VerifiedDrivesSuffice(s, body, attrs, later, Negated(lost));
    ReadByFirst(s, body, attrs, healed, later);
  }

  /**
   * When a heal rebuilds: exactly when some copy of the metadata survives, something is
   * damaged, and K drives verify on every block or only metadata is missing.
   */
  lemma HealRepairsIff<D>(s: Setup<D>, body: seq<Byte>, attrs: Attributes, drives: seq<Drive<D>>)
    requires Proper(s) && |drives| == s.code.N()
    ensures HealResult(s, body, attrs, drives, false).1 <==>
              && (exists d :: 0 <= d < |drives| && drives[d].meta.Some?)
              && (exists d :: 0 <= d < |drives| && (drives[d].meta.None? || !Verifies(s, body, attrs, drives, d)))
              && ((forall d :: 0 <= d < |drives| ==> Verifies(s, body, attrs, drives, d))
                  || Count(Negated(BadParts(s, body, attrs, drives))) >= s.code.k)
  {
    hide Mds, NBlocks, FullStream, SlotsOf, Verifies;
    var bad, badMeta := BadParts(s, body, attrs, drives), BadMetas(drives);
    CountZero(badMeta);
    CountZero(bad);
    CountZero(Either(bad, badMeta));
    if Count(Negated(bad)) >= s.code.k {
      VerifiedDrivesSuffice(s, body, attrs, drives, Negated(bad));
    }
  }

  /**
   * A dry run does not foretell every repair. It announces a repair that then fails
   * exactly when every block keeps K good shards but fewer than K drives are good on
   * all blocks at once.
   */
  lemma DryRunMispredictsIff<D>(s: Setup<D>, body: seq<Byte>, attrs: Attributes, drives: seq<Drive<D>>)
    requires Proper(s) && |drives| == s.code.N() && (exists d :: 0 <= d < |drives| && drives[d].meta.Some?)
    ensures HealResult(s, body, attrs, drives, true).0 != HealResult(s, body, attrs, drives, false).0 <==>
              && Readable(s, body, attrs, drives, 0)
              && Count(Negated(BadParts(s, body, attrs, drives))) < s.code.k
  {
    hide Mds, NBlocks, FullStream, SlotsOf, Verifies, Readable;
    ProperShape(s);
    var bad, badMeta := BadParts(s, body, attrs, drives), BadMetas(drives);
    CountZero(badMeta);
    CountZero(bad);
    CountZero(Either(bad, badMeta));
    CountNegated(bad);
    CountOrder(bad, Either(bad, badMeta));
  }
}
