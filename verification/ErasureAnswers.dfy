/** What callers of an erasure-coded object see: overwriting and reading back, healing and reading back (src/erasure/store.rs). */
module ErasureAnswers {
  import opened Wrappers
  import opened FileWrites
  import opened Codec
  import opened Sharding
  import opened ErasureStore
  import Streams

  // ---------------------------------------------------------------------------
  // Put, then get
  // ---------------------------------------------------------------------------

  /** Nothing goes wrong on the drive. */
  predicate Faultless(f: Faults) {
    f.createOk && f.failAt.None? && f.closeOk && f.renameOk && f.meta.Acked?
  }

  lemma {:induction false} FaultlessCount(faults: seq<Faults>, n: nat)
    requires forall d :: 0 <= d < |faults| ==> Faultless(faults[d])
    ensures Count(Flags(faults, n)) == |faults|
  {
    CountZero(Flags(faults, n));
  }

  /**
   * What is left on a drive, step by step. A writer that fails before the rename leaves
   * it as it was; a rename reported as failed leaves the old metadata, over the old part
   * or, if it landed after all, the new one; and a metadata write that fails leaves the
   * new part under the new metadata, none, or the old.
   */
  lemma StepsLeave<D>(before: Drive<D>, f: Faults, n: nat, stream: seq<Byte>, meta: XlMeta<D>)
    ensures var after := AfterWrite(before, f, n, stream, meta);
            if !f.createOk || (f.failAt.Some? && f.failAt.value < n) || !f.closeOk then after == before
            else if !f.renameOk then after == before.(part := if f.renameLands then Some(stream) else before.part)
            else after == match f.meta
                          case Acked => Drive(Some(stream), Some(meta))
                          case Landed => Drive(Some(stream), Some(meta))
                          case Torn => Drive(Some(stream), None)
                          case Missed => Drive(Some(stream), before.meta)
    ensures Confirmed(f, n) <==> f.createOk && (f.failAt.Some? ==> f.failAt.value >= n) && f.closeOk && f.renameOk && f.meta == Acked
  {
  }

  /** A drive that confirmed a write holds the new object, whatever it held before. */
  lemma ConfirmedIsComplete<D>(s: Setup<D>, body: seq<Byte>, attrs: Attributes, before: Drive<D>, f: Faults, d: nat)
    requires Proper(s) && d < s.code.N() && Confirmed(f, NBlocks(|body|, s.blockSize))
    ensures Complete(s, body, attrs, AfterWrite(before, f, NBlocks(|body|, s.blockSize), FullStream(s, body, d), MetaOf(s, body, attrs)), d)
  {
    hide Mds, NBlocks, FullStream, MetaOf;
  }

  /**
   * Writing over any object, or none: each drive that confirmed holds exactly the new
   * stream and metadata, and as soon as the copy a reader goes by is the new one, as
   * when the first drive confirmed, the new body is read back whole.
   */
  lemma OverwrittenReads<D>(s: Setup<D>, body: seq<Byte>, attrs: Attributes, faults: seq<Faults>, before: seq<Drive<D>>, after: seq<Drive<D>>)
    requires Proper(s) && |faults| == |before| == |after| == s.code.N()
    requires forall d :: 0 <= d < |faults| ==>
               after[d] == AfterWrite(before[d], faults[d], NBlocks(|body|, s.blockSize), FullStream(s, body, d), MetaOf(s, body, attrs))
    requires Count(Flags(faults, NBlocks(|body|, s.blockSize))) >= s.code.k + 1
    ensures var flags := Flags(faults, NBlocks(|body|, s.blockSize));
            && (forall d :: 0 <= d < |flags| && flags[d] ==> Complete(s, body, attrs, after[d], d))
            && |flags| > 0 && (flags[0] ==> FirstMeta(after) == Some(MetaOf(s, body, attrs)))
            && ReadFrom(s.code, s.digest, MetaOf(s, body, attrs), after, 0) == body
  {
    hide Mds, NBlocks, FullStream, MetaOf, ReadFrom, FirstMeta, AfterWrite, Confirmed;
    ProperShape(s);
    var flags := Flags(faults, NBlocks(|body|, s.blockSize));
    forall d | 0 <= d < |flags| && flags[d] ensures Complete(s, body, attrs, after[d], d) && Verifies(s, body, attrs, after, d) {
      ConfirmedIsComplete(s, body, attrs, before[d], faults[d], d);
      StreamKept(s, body, attrs, after, d);
    }
    VerifiedDrivesSuffice(s, body, attrs, after, flags);
    FirstOfAll(after);
  }

  /** No metadata with blocks of no octets. */
  predicate Sized<D>(drive: Drive<D>) {
    drive.meta.Some? ==> drive.meta.value.blockSize >= 1
  }

  lemma WrittenIsSized<D>(s: Setup<D>, body: seq<Byte>, attrs: Attributes, before: Drive<D>, f: Faults, d: nat)
    requires Proper(s) && d < s.code.N() && Sized(before)
    ensures Sized(AfterWrite(before, f, NBlocks(|body|, s.blockSize), FullStream(s, body, d), MetaOf(s, body, attrs)))
  {
    hide Mds, NBlocks, FullStream, MetaOf;
    MetaShape(s, body, attrs);
  }

  lemma FirstIsSized<D>(drives: seq<Drive<D>>)
    requires forall d :: 0 <= d < |drives| ==> Sized(drives[d])
    ensures FirstMeta(drives).Some? ==> FirstMeta(drives).value.blockSize >= 1
  {
    var _ := FirstMetaAt(drives);
  }

  /**
   * Put, then get, over whatever the drives hold. When nothing goes wrong the put
   * succeeds and the get returns exactly the body and its attributes; when drives fail,
   * a successful put is read back whenever the first drive confirmed it.
   */
  method PutThenGetBack<D(==)>(store: ErasureStore<D>, src: Streams.Reader<Byte>, attrs: Attributes, faults: seq<Faults>)
    returns (put: Result<(), WriteError>, meta: Option<XlMeta<D>>, got: Option<seq<Byte>>)
    requires Proper(store.setup) && |store.drives| == |faults| == store.setup.code.N()
    requires forall d :: 0 <= d < |store.drives| ==> Sized(store.drives[d])
    modifies store, src`rest
    ensures !src.fails && (forall d :: 0 <= d < |faults| ==> Faultless(faults[d])) ==>
              put == Success(()) && meta.Some? && meta.value.attrs == attrs && meta.value.storedSize == |old(src.rest)| && got == Some(old(src.rest))
    ensures put.Success? && Confirmed(faults[0], NBlocks(|old(src.rest)|, store.setup.blockSize)) ==> got == Some(old(src.rest))
    ensures src.fails ==> put == Failure(ReadBody)
  {
    hide Mds, NBlocks, FullStream, ReadFrom, Confirmed, FirstMeta;
    ghost var s, body, before := store.setup, src.rest, store.drives;
    ghost var n := NBlocks(|body|, s.blockSize);
    ProperShape(s);
    if forall d :: 0 <= d < |faults| ==> Faultless(faults[d]) {
      FaultlessCount(faults, n);
      assert Flags(faults, n)[0] by { CountZero(Flags(faults, n)); }
    }
    put := store.WriteSharded(src, attrs, faults);
    if put.Success? { OverwrittenReads(s, body, attrs, faults, before, store.drives); }
    forall d | 0 <= d < |store.drives| ensures Sized(store.drives[d]) {
      if !src.fails { WrittenIsSized(s, body, attrs, before[d], faults[d], d); }
    }
    FirstIsSized(store.drives);
    meta := store.ReadXl();
    got := store.Get();
  }

  // ---------------------------------------------------------------------------
  // Heal, then get
  // ---------------------------------------------------------------------------

  function Where(flags: seq<bool>): set<nat> {
    set i: nat | i < |flags| && flags[i]
  }

  lemma {:induction false} CountIsSize(flags: seq<bool>)
    ensures Count(flags) == |Where(flags)|
  {
    if flags == [] {
      assert Where(flags) == {};
    } else {
      var n := |flags| - 1;
      CountIsSize(flags[..n]);
      CountLast(flags);
      assert Where(flags) == Where(flags[..n]) + if flags[n] then {n} else {};
    }
  }

  lemma {:induction false} CountLast(flags: seq<bool>)
    requires flags != []
    ensures Count(flags) == Count(flags[..|flags| - 1]) + if flags[|flags| - 1] then 1 else 0
  {
    if |flags| > 1 {
      CountLast(flags[1..]);
      assert flags[1..][..|flags| - 2] == flags[..|flags| - 1][1..];
    }
  }

  /** The drives that have a shard of block `b` which matches its digest. */
  ghost function GoodFor<D>(s: Setup<D>, body: seq<Byte>, attrs: Attributes, drives: seq<Drive<D>>, b: nat): set<nat>
    requires Proper(s) && b < NBlocks(|body|, s.blockSize)
  {
    set d: nat | d < |drives| && SlotsOf(s, body, attrs, drives, b)[d].Some?
  }

  lemma {:induction false} PresentIsSize(slots: seq<Option<Shard>>)
    ensures Present(slots) == |set d: nat | d < |slots| && slots[d].Some?|
  {
    var flags := seq(|slots|, d requires 0 <= d < |slots| => slots[d].Some?);
    CountIsSize(flags);
    assert Where(flags) == set d: nat | d < |slots| && slots[d].Some?;
    PresentIsCount(slots, flags);
  }

  lemma {:induction false} PresentIsCount(slots: seq<Option<Shard>>, flags: seq<bool>)
    requires |slots| == |flags| && forall d :: 0 <= d < |slots| ==> flags[d] == slots[d].Some?
    ensures Present(slots) == Count(flags)
  {
    if slots != [] {
      PresentIsCount(slots[1..], flags[1..]);
    }
  }

  /** Some block has fewer than K good shards. */
  ghost predicate TooFewSomewhere<D>(s: Setup<D>, body: seq<Byte>, attrs: Attributes, drives: seq<Drive<D>>)
    requires Proper(s)
  {
    exists b :: 0 <= b < NBlocks(|body|, s.blockSize) && |GoodFor(s, body, attrs, drives, b)| < s.code.k
  }

  lemma TooFewIff<D>(s: Setup<D>, body: seq<Byte>, attrs: Attributes, drives: seq<Drive<D>>)
    requires Proper(s)
    ensures TooFewSomewhere(s, body, attrs, drives) <==> !Readable(s, body, attrs, drives, 0)
  {
    hide Mds, NBlocks, SlotsOf, Present;
    forall b | 0 <= b < NBlocks(|body|, s.blockSize)
      ensures Present(SlotsOf(s, body, attrs, drives, b)) == |GoodFor(s, body, attrs, drives, b)|
    {
      var slots := SlotsOf(s, body, attrs, drives, b);
      PresentIsSize(slots);
      assert GoodFor(s, body, attrs, drives, b) == set d: nat | d < |slots| && slots[d].Some?;
    }
  }

  /** The drives that fail to verify or have no metadata, and those that verify on every block. */
  ghost function DamagedDrives<D>(s: Setup<D>, body: seq<Byte>, attrs: Attributes, drives: seq<Drive<D>>): set<nat>
    requires Proper(s)
  {
    set d: nat | d < |drives| && (!Verifies(s, body, attrs, drives, d) || drives[d].meta.None?)
  }

  ghost function IntactDrives<D>(s: Setup<D>, body: seq<Byte>, attrs: Attributes, drives: seq<Drive<D>>): set<nat>
    requires Proper(s)
  {
    set d: nat | d < |drives| && Verifies(s, body, attrs, drives, d)
  }

  /**
   * When a heal answers what. `Healthy`: every drive verifies and has metadata.
   * `Unrecoverable`: no metadata is left, or a drive fails and some block has fewer than K
   * good shards. `Healed`: otherwise, with the number of damaged drives. Without a dry
   * run, an error instead of that when a drive fails and fewer than K drives verify on
   * every block at once.
   */
  lemma HealAnswers<D>(s: Setup<D>, body: seq<Byte>, attrs: Attributes, drives: seq<Drive<D>>, dryRun: bool)
    requires Proper(s) && |drives| == s.code.N()
    ensures var r := HealResult(s, body, attrs, drives, dryRun).0;
            var known := exists d :: 0 <= d < |drives| && drives[d].meta.Some?;
            var failing := exists d :: 0 <= d < |drives| && !Verifies(s, body, attrs, drives, d);
            && (r == Some(Healthy) <==> forall d :: 0 <= d < |drives| ==> Verifies(s, body, attrs, drives, d) && drives[d].meta.Some?)
            && (r == Some(Unrecoverable) <==> !known || (failing && TooFewSomewhere(s, body, attrs, drives)))
            && (forall c :: r == Some(Healed(c)) ==> c == |DamagedDrives(s, body, attrs, drives)| > 0)
            && (r == None <==> known && !dryRun && failing && !TooFewSomewhere(s, body, attrs, drives)
                               && |IntactDrives(s, body, attrs, drives)| < s.code.k)
  {
    hide Mds, NBlocks, SlotsOf, Verifies, Readable, TooFewSomewhere;
    ProperShape(s);
    TooFewIff(s, body, attrs, drives);
    var bad, badMeta := BadParts(s, body, attrs, drives), BadMetas(drives);
    var damaged := Either(bad, badMeta);
    CountZero(bad);
    CountZero(badMeta);
    CountZero(damaged);
    CountIsSize(damaged);
    CountIsSize(Negated(bad));
    assert Where(damaged) == DamagedDrives(s, body, attrs, drives);
    assert Where(Negated(bad)) == IntactDrives(s, body, attrs, drives);
  }

  /**
   * Heal, then get: when the heal reports the object healthy or healed, however drives
   * may fail on the way, a get returns the stored bytes.
   */
  method HealThenGet<D(==)>(store: ErasureStore<D>, faults: seq<RepairFaults>, ghost body: seq<Byte>, ghost attrs: Attributes)
    returns (healed: Option<HealOutcome>, got: Option<seq<Byte>>)
    requires Proper(store.setup) && GoesBy(store.setup, body, attrs, store.drives) && |faults| == |store.drives|
    modifies store
    ensures healed.Some? && healed.value != Unrecoverable ==> got == Some(body)
  {
    hide Mds, NBlocks, FullStream, ReadFrom, FirstMeta, HealResult, AfterHeal, HealedDrives, Verifies, Readable, Installs, Stages, BadParts, MetaOf;
    ghost var s, before := store.setup, store.drives;
    ProperShape(s);
    HealAnswers(s, body, attrs, before, false);
    healed := store.HealObject(false, faults, body, attrs);
    HealRewrites(s, body, attrs, before);
    if healed.Some? && healed.value.Healed? {
      HealWithoutError(s, body, attrs, before, faults);
      HealedVerify(s, body, attrs, before, false);
    }
    if healed.Some? && healed.value == Healthy {
      assert store.drives == before;
    }
    got := None;
    if healed.Some? && healed.value != Unrecoverable {
      AllVerifyReads(s, body, attrs, store.drives);
      MetaShape(s, body, attrs);
      got := store.Get();
    }
  }

  /** Only a heal that reports rewritten shards writes. */
  lemma HealRewrites<D>(s: Setup<D>, body: seq<Byte>, attrs: Attributes, drives: seq<Drive<D>>)
    requires Proper(s) && |drives| == s.code.N()
    ensures var result := HealResult(s, body, attrs, drives, false); result.1 <==> result.0.Some? && result.0.value.Healed?
  {
    hide Mds, NBlocks, SlotsOf, Verifies, Readable;
  }

  lemma AllVerifyReads<D>(s: Setup<D>, body: seq<Byte>, attrs: Attributes, drives: seq<Drive<D>>)
    requires Proper(s) && GoesBy(s, body, attrs, drives)
    requires forall d :: 0 <= d < |drives| ==> Verifies(s, body, attrs, drives, d) && drives[d].meta.Some?
    ensures FirstMeta(drives) == Some(MetaOf(s, body, attrs))
    ensures ReadFrom(s.code, s.digest, MetaOf(s, body, attrs), drives, 0) == body
  {
    hide Mds, NBlocks, Verifies, Readable, ReadFrom, MetaOf;
    ProperShape(s);
    var all := seq(|drives|, _ => true);
    CountZero(all);
    VerifiedDrivesSuffice(s, body, attrs, drives, all);
    FirstOfAll(drives);
  }
}
