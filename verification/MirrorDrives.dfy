/**
 * Two mirrored drives, by example: each with a different damaged block, where a dry run
 * announces a repair that then fails; one with a byte too many, which a heal keeps; and the
 * only metadata copy on a drive where rewriting it fails half way.
 */
module MirrorDrives {
  import opened Wrappers
  import opened FileWrites
  import opened Codec
  import opened Sharding
  import opened ErasureStore
  import XorCode

  function Identity(x: Shard): Shard { x }

  /** K = M = 1, blocks of one byte, and the shard as its own digest. */
  function Mirror(): Setup<Shard> {
    Setup(XorCode.Single(1), 1, Identity)
  }

  const BODY: seq<Byte> := [1, 2]
  const ATTRS := Attributes("", "", false, 0)

  lemma MirrorProper()
    ensures Proper(Mirror())
  {
    XorCode.SingleIsMds(1);
    forall a, b | Mirror().digest(a) == Mirror().digest(b) ensures a == b {
      assert Mirror().digest(a) == Identity(a) && Mirror().digest(b) == Identity(b);
    }
  }

  lemma MirrorLayout(b: nat)
    requires b < 2
    ensures |BODY| == 2 && NBlocks(2, 1) == 2 && BlockLen(2, 1, b) == 1 && ShardLen(1, 1) == 1 && Offset(1, 2, 1, b) == b
    ensures Block(BODY, 1, b) == [BODY[b]]
  {
    assert NBlocks(2, 1) == 2;
    assert BlockLen(2, 1, 0) == 1 && BlockLen(2, 1, 1) == 1 && ShardLen(1, 1) == 1;
    assert Offset(1, 2, 1, 0) == 0;
    assert Offset(1, 2, 1, 1) == 1;
  }

  lemma MirrorShards(x: Byte)
    ensures Shards(XorCode.Single(1), [x]) == [[x], [x]]
  {
    assert ShardLen(1, 1) == 1;
    assert DataShard([x], 1, 0) == [x];
    var data := DataShards(1, [x]);
    assert data == [[x]];
    MirrorParity(x);
    hide DataShards, XorCode.Single;
    assert Shards(XorCode.Single(1), [x]) == data + [[x]];
  }

  lemma MirrorParity(x: Byte)
    ensures XorCode.Single(1).k == 1 && XorCode.Single(1).parity([[x]]) == [[x]]
  {
    var data: seq<Shard> := [[x]];
    XorCode.XorLaws([x], [x], [x]);
    assert data[1..] == [];
    assert XorCode.XorAll(data[1..], 1) == XorCode.Zero(1);
    assert XorCode.XorAll(data, 1) == XorCode.Xor([x], XorCode.Zero(1)) == [x];
  }

  /** Either drive's shard of block b is byte b itself. */
  lemma MirrorShard(b: nat, d: nat)
    requires b < 2 && d < 2
    ensures Proper(Mirror()) && b < NBlocks(|BODY|, 1) && Mirror().code.N() == 2
    ensures ShardAt(Mirror(), BODY, b, d) == [BODY[b]]
  {
    MirrorProper();
    MirrorLayout(b);
    MirrorShards(BODY[b]);
    hide Mds, Shards, NBlocks, BlockLen, Block;
  }

  ghost function Damaged(): seq<Drive<Shard>>
    requires Proper(Mirror())
  {
    var meta := Some(MetaOf(Mirror(), BODY, ATTRS));
    [Drive(Some([1, 9]), meta), Drive(Some([9, 2]), meta)]
  }

  lemma MirrorDigest(b: nat, d: nat)
    requires b < 2 && d < 2
    ensures Proper(Mirror()) && NBlocks(|BODY|, 1) == 2
    ensures var sums := MetaOf(Mirror(), BODY, ATTRS).checksums; |sums| == 2 && |sums[d]| == 2 && sums[d][b] == [BODY[b]]
  {
    MirrorShard(b, d);
    MirrorLayout(b);
    hide Mds, Shards, NBlocks, BlockLen, Block, ShardAt;
    assert Digests(Mirror(), BODY, d, 2)[b] == Identity(ShardAt(Mirror(), BODY, b, d));
  }

  lemma ReadByte(sums: seq<seq<Shard>>, drive: Drive<Shard>, d: nat, b: nat)
    requires b < 2 && d < |sums| && b < |sums[d]| && drive.part.Some? && |drive.part.value| == 2
    ensures ReadShard(Identity, sums, drive, b, 1, d, b).Some? <==> sums[d][b] == [drive.part.value[b]]
  {
    assert drive.part.value[b..b + 1] == [drive.part.value[b]];
  }

  lemma DamagedSlot(b: nat, d: nat)
    requires b < 2 && d < 2
    ensures Proper(Mirror()) && b < NBlocks(|BODY|, 1) && |SlotsOf(Mirror(), BODY, ATTRS, Damaged(), b)| == 2
    ensures SlotsOf(Mirror(), BODY, ATTRS, Damaged(), b)[d]
            == ReadShard(Identity, MetaOf(Mirror(), BODY, ATTRS).checksums, Damaged()[d], b, 1, d, b)
  {
    MirrorProper();
    MirrorLayout(b);
    MirrorCode();
    hide XorCode.Single, Proper, NBlocks, BlockLen, ShardLen, Offset, MetaOf, ReadShard;
  }

  lemma MirrorCode()
    ensures Mirror().code.k == 1 && Mirror().code.m == 1 && Mirror().blockSize == 1 && Mirror().digest == Identity
  {
  }

  /** What drive `d` yields for block `b`: its byte when it is intact. */
  lemma DamagedShard(b: nat, d: nat)
    requires b < 2 && d < 2
    ensures Proper(Mirror()) && b < NBlocks(|BODY|, 1)
    ensures |SlotsOf(Mirror(), BODY, ATTRS, Damaged(), b)| == 2
    ensures SlotsOf(Mirror(), BODY, ATTRS, Damaged(), b)[d].Some? <==> d == b
  {
    MirrorDigest(b, d);
    DamagedSlot(b, d);
    hide Mirror, Proper, NBlocks, MetaOf, SlotsOf, ReadShard;
    ReadByte(MetaOf(Mirror(), BODY, ATTRS).checksums, Damaged()[d], d, b);
    assert d != b ==> Damaged()[d].part.value[b] == 9;
  }

  lemma DamagedBlock(b: nat)
    requires b < 2
    ensures Proper(Mirror()) && b < NBlocks(|BODY|, 1) && Present(SlotsOf(Mirror(), BODY, ATTRS, Damaged(), b)) == 1
  {
    DamagedShard(b, 0);
    DamagedShard(b, 1);
    hide Mds, NBlocks, SlotsOf;
    var slots := SlotsOf(Mirror(), BODY, ATTRS, Damaged(), b);
    assert slots[1..][1..] == [];
  }

  lemma DamagedMetas()
    ensures Proper(Mirror()) && |Damaged()| == 2 && Agreeing(Mirror(), BODY, ATTRS, Damaged())
    ensures BadMetas(Damaged()) == [false, false]
  {
    MirrorProper();
    MirrorCode();
    hide Proper, MetaOf, XorCode.Single;
    assert BadMetas(Damaged()) == [false, false];
  }

  /** Each drive is bad somewhere. */
  lemma DamagedVerifies(d: nat)
    requires d < 2
    ensures Proper(Mirror()) && |Damaged()| == 2 && !Verifies(Mirror(), BODY, ATTRS, Damaged(), d)
  {
    DamagedMetas();
    DamagedShard(1 - d, d);
    MirrorCode();
    hide Proper, Damaged, NBlocks, SlotsOf, Mirror, Agreeing, BadMetas;
  }

  lemma BothBad<D>(s: Setup<D>, body: seq<Byte>, attrs: Attributes, drives: seq<Drive<D>>)
    requires Proper(s) && |drives| == 2 && !Verifies(s, body, attrs, drives, 0) && !Verifies(s, body, attrs, drives, 1)
    ensures BadParts(s, body, attrs, drives) == [true, true]
  {
    hide Proper, Verifies, SlotsOf;
  }

  lemma TwoBlocksReadable<D>(s: Setup<D>, body: seq<Byte>, attrs: Attributes, drives: seq<Drive<D>>)
    requires Proper(s) && NBlocks(|body|, s.blockSize) == 2
    requires Present(SlotsOf(s, body, attrs, drives, 0)) >= s.code.k && Present(SlotsOf(s, body, attrs, drives, 1)) >= s.code.k
    ensures Readable(s, body, attrs, drives, 0)
  {
    hide Proper, NBlocks, SlotsOf, Present;
  }

  /** Yet every block has its K = 1 good shard. */
  lemma DamagedReadable()
    ensures Proper(Mirror()) && Readable(Mirror(), BODY, ATTRS, Damaged(), 0)
  {
    MirrorCode();
    MirrorLayout(0);
    DamagedBlock(0);
    DamagedBlock(1);
    hide *;
    TwoBlocksReadable(Mirror(), BODY, ATTRS, Damaged());
  }

  lemma DamagedDiagnosis()
    ensures Proper(Mirror()) && Agreeing(Mirror(), BODY, ATTRS, Damaged())
    ensures BadParts(Mirror(), BODY, ATTRS, Damaged()) == [true, true] && BadMetas(Damaged()) == [false, false]
    ensures Readable(Mirror(), BODY, ATTRS, Damaged(), 0)
  {
    DamagedMetas();
    DamagedVerifies(0);
    DamagedVerifies(1);
    BothBad(Mirror(), BODY, ATTRS, Damaged());
    DamagedReadable();
    hide Proper, Damaged, Readable, BadParts, BadMetas, Agreeing, Mirror, Verifies;
  }

  /** The dry run says two drives would be rewritten; the repair itself returns an error. */
  lemma DryRunMispredicts()
    ensures Proper(Mirror()) && Agreeing(Mirror(), BODY, ATTRS, Damaged())
    ensures HealResult(Mirror(), BODY, ATTRS, Damaged(), true) == (Some(Healed(2)), false)
    ensures HealResult(Mirror(), BODY, ATTRS, Damaged(), false) == (None, false)
  {
    DamagedDiagnosis();
    hide Proper, Agreeing, BadParts, Readable, Damaged;
    assert Mirror().code.k == 1 && |Damaged()| == 2 by { DamagedSize(); }
    assert Either([true, true], [false, false]) == [true, true];
    assert Negated([true, true]) == [false, false];
    CountZero([true, true]);
    CountZero([false, false]);
  }

  lemma DamagedSize()
    ensures Mirror().code.k == 1
    ensures Proper(Mirror()) && |Damaged()| == 2
  {
    MirrorProper();
  }

  // ---------------------------------------------------------------------------
  // A byte too many
  // ---------------------------------------------------------------------------

  lemma TwoBlockStream<D>(s: Setup<D>, body: seq<Byte>, d: nat)
    requires Proper(s) && d < s.code.N() && NBlocks(|body|, s.blockSize) == 2
    ensures FullStream(s, body, d) == ShardAt(s, body, 0, d) + ShardAt(s, body, 1, d)
  {
    hide Proper, Stream, ShardAt, NBlocks;
    StreamStart(s, body, d);
    StreamGrows(s, body, d, 0);
    StreamGrows(s, body, d, 1);
  }

  /** Either drive's stream is the body itself. */
  lemma MirrorStream(d: nat)
    requires d < 2
    ensures Proper(Mirror()) && Mirror().code.N() == 2 && FullStream(Mirror(), BODY, d) == [1, 2]
  {
    MirrorCode();
    MirrorShard(0, d);
    MirrorShard(1, d);
    MirrorLayout(0);
    BodyBytes();
    hide *;
    TwoBlockStream(Mirror(), BODY, d);
  }

  lemma BodyBytes()
    ensures [BODY[0]] + [BODY[1]] == [1, 2]
  {
  }

  /** The first drive is intact with one more byte behind its stream, the second is empty. */
  ghost function Overlong(): seq<Drive<Shard>>
    requires Proper(Mirror())
  {
    [Drive(Some([1, 2, 7]), Some(MetaOf(Mirror(), BODY, ATTRS))), Drive(None, None)]
  }

  lemma OneBad<D>(s: Setup<D>, body: seq<Byte>, attrs: Attributes, drives: seq<Drive<D>>)
    requires Proper(s) && s.code.k == 1 && s.code.N() == |drives| == 2
    requires Verifies(s, body, attrs, drives, 0) && !Verifies(s, body, attrs, drives, 1)
    requires drives[0].meta.Some? && drives[1].meta.None?
    ensures HealResult(s, body, attrs, drives, false) == (Some(Healed(1)), true)
  {
    hide Proper, Verifies, SlotsOf;
    var bad, badMeta := BadParts(s, body, attrs, drives), BadMetas(drives);
    assert bad == badMeta == Either(bad, badMeta) == [false, true] && Negated(bad) == [true, false];
    CountTwo(false, true);
    CountTwo(true, false);
    VerifiedDrivesSuffice(s, body, attrs, drives, Negated(bad));
  }

  lemma CountTwo(a: bool, b: bool)
    ensures Count([a, b]) == (if a then 1 else 0) + if b then 1 else 0
  {
    assert [a, b][1..] == [b] && [b][1..] == [];
  }

  lemma OverlongShape()
    ensures Proper(Mirror()) && Mirror().code.N() == 2 && |Overlong()| == 2 && Agreeing(Mirror(), BODY, ATTRS, Overlong())
    ensures Overlong()[0].part == Some([1, 2, 7]) && Overlong()[0].meta.Some? && Overlong()[1] == Drive(None, None)
  {
    MirrorProper();
    MirrorCode();
    hide Mirror, Proper, MetaOf;
  }

  lemma OverlongVerifies()
    ensures Proper(Mirror()) && |Overlong()| == 2
    ensures Verifies(Mirror(), BODY, ATTRS, Overlong(), 0) && !Verifies(Mirror(), BODY, ATTRS, Overlong(), 1)
  {
    OverlongShape();
    MirrorStream(0);
    MirrorStream(1);
    hide *;
    VerifiesIffStream(Mirror(), BODY, ATTRS, Overlong(), 0);
    VerifiesIffStream(Mirror(), BODY, ATTRS, Overlong(), 1);
    assert [1, 2] <= [1, 2, 7];
  }

  /** A repairing heal rebuilds the empty drive and leaves the extra byte on the other. */
  lemma ExtraByteStays()
    ensures Proper(Mirror()) && Mirror().code.N() == 2 && Agreeing(Mirror(), BODY, ATTRS, Overlong())
    ensures HealResult(Mirror(), BODY, ATTRS, Overlong(), false) == (Some(Healed(1)), true)
    ensures var healed := HealedDrives(Mirror(), BODY, ATTRS, Overlong());
            && healed[0].part == Some([1, 2, 7]) && !Complete(Mirror(), BODY, ATTRS, healed[0], 0)
            && Complete(Mirror(), BODY, ATTRS, healed[1], 1)
  {
    OverlongVerifies();
    OverlongShape();
    MirrorStream(0);
    MirrorStream(1);
    MirrorCode();
    hide Mirror, Proper, FullStream, MetaOf, Verifies, Agreeing, Overlong, HealResult, Complete;
    OneBad(Mirror(), BODY, ATTRS, Overlong());
    HealedExactIff(Mirror(), BODY, ATTRS, Overlong(), 0);
    HealedExactIff(Mirror(), BODY, ATTRS, Overlong(), 1);
  }

  // ---------------------------------------------------------------------------
  // A repair that loses the object
  // ---------------------------------------------------------------------------

  /** The first drive has the only metadata and a bad part, the second a good part. */
  ghost function Lopsided(): seq<Drive<Shard>>
    requires Proper(Mirror())
  {
    [Drive(Some([1, 9]), Some(MetaOf(Mirror(), BODY, ATTRS))), Drive(Some([1, 2]), None)]
  }

  /** Everything works but the metadata write on the first drive, which stops half way. */
  const TEARING := [RepairFaults(true, true, true, true, true, Torn), RepairFaults(true, true, true, true, true, Acked)]

  lemma LopsidedShape()
    ensures Proper(Mirror()) && Mirror().code.N() == 2 && |Lopsided()| == |TEARING| == 2 && Agreeing(Mirror(), BODY, ATTRS, Lopsided())
    ensures Lopsided()[0].part == Some([1, 9]) && Lopsided()[0].meta.Some? && Lopsided()[1] == Drive(Some([1, 2]), None)
  {
    MirrorProper();
    MirrorCode();
    hide Mirror, Proper, MetaOf;
  }

  lemma LopsidedVerifies()
    ensures Proper(Mirror()) && |Lopsided()| == 2
    ensures !Verifies(Mirror(), BODY, ATTRS, Lopsided(), 0) && Verifies(Mirror(), BODY, ATTRS, Lopsided(), 1)
  {
    LopsidedShape();
    MirrorStream(0);
    MirrorStream(1);
    hide *;
    VerifiesIffStream(Mirror(), BODY, ATTRS, Lopsided(), 0);
    VerifiesIffStream(Mirror(), BODY, ATTRS, Lopsided(), 1);
    PairPrefix(1, 2, 1, 9);
    PairPrefix(1, 2, 1, 2);
  }

  lemma PairPrefix(a: Byte, b: Byte, c: Byte, d: Byte)
    ensures [a, b] <= [c, d] <==> a == c && b == d
  {
    if [a, b] <= [c, d] { assert [c, d][..2] == [c, d] == [a, b]; }
  }

  /** Of two drives the first is bad and has the only metadata: a heal repairs. */
  lemma FirstBad<D>(s: Setup<D>, body: seq<Byte>, attrs: Attributes, drives: seq<Drive<D>>)
    requires Proper(s) && s.code.k == 1 && s.code.N() == |drives| == 2
    requires !Verifies(s, body, attrs, drives, 0) && Verifies(s, body, attrs, drives, 1)
    requires drives[0].meta.Some? && drives[1].meta.None?
    ensures BadParts(s, body, attrs, drives) == [true, false] && BadMetas(drives) == [false, true]
    ensures HealResult(s, body, attrs, drives, false) == (Some(Healed(2)), true)
    ensures FirstMeta(drives).Some? && FirstMeta(drives[1..]).None?
  {
    hide Proper, Verifies, SlotsOf;
    var bad, badMeta := BadParts(s, body, attrs, drives), BadMetas(drives);
    assert bad == Negated(badMeta) == [true, false] && badMeta == Negated(bad) == [false, true] && Either(bad, badMeta) == [true, true];
    CountTwo(true, true);
    CountTwo(false, true);
    VerifiedDrivesSuffice(s, body, attrs, drives, Negated(bad));
    var _ := FirstMetaAt(drives);
    var _ := FirstMetaAt(drives[1..]);
  }

  /** What the torn write makes of the two drives: both parts good, no metadata. */
  lemma TornAtFirst<D>(s: Setup<D>, body: seq<Byte>, attrs: Attributes, drives: seq<Drive<D>>)
    requires Proper(s) && s.code.N() == |drives| == 2
    requires BadParts(s, body, attrs, drives) == [true, false] && BadMetas(drives) == [false, true]
    ensures Stages(TEARING, [true, false]) && !Installs(TEARING, [true, false], [false, true]) && TearsFirst(s, body, attrs, drives, TEARING)
    ensures AfterHeal(s, body, attrs, drives, TEARING) == [Drive(Some(FullStream(s, body, 0)), None), drives[1]]
  {
    hide Proper, Verifies, SlotsOf, FullStream, MetaOf, BadParts, BadMetas;
    var bad, badMeta := [true, false], [false, true];
    assert Either(bad, badMeta) == [true, true];
    assert PartFails(TEARING, bad) == [false, false] && MetaFails(TEARING, [true, true]) == [true, false];
    assert PartStop(TEARING, bad).None? && MetaStop(TEARING, [true, true]) == Some(0);
    assert bad == BadParts(s, body, attrs, drives);
  }

  /**
   * The heal repairs the part of the first drive, tears its metadata and returns an error.
   * Both drives then hold the whole stream, and the object is lost: there is no metadata
   * for readers, and no later heal restores it.
   */
  lemma TornRewriteLosesObject()
    ensures Proper(Mirror()) && Mirror().code.N() == 2 && Agreeing(Mirror(), BODY, ATTRS, Lopsided())
    ensures HealResult(Mirror(), BODY, ATTRS, Lopsided(), false) == (Some(Healed(2)), true)
    ensures Stages(TEARING, BadParts(Mirror(), BODY, ATTRS, Lopsided()))
    ensures var now := AfterHeal(Mirror(), BODY, ATTRS, Lopsided(), TEARING);
            && now == [Drive(Some([1, 2]), None), Drive(Some([1, 2]), None)]
            && FirstMeta(now) == None
            && HealResult(Mirror(), BODY, ATTRS, now, false) == (Some(Unrecoverable), false)
  {
    LopsidedVerifies();
    LopsidedShape();
    MirrorStream(0);
    MirrorCode();
    hide Mirror, Proper, FullStream, MetaOf, Verifies, Agreeing, Lopsided, HealResult, AfterHeal, FirstMeta, TearsFirst, Stages;
    FirstBad(Mirror(), BODY, ATTRS, Lopsided());
    TornAtFirst(Mirror(), BODY, ATTRS, Lopsided());
    AgreeingGoesBy(Mirror(), BODY, ATTRS, Lopsided());
    InterruptedMeta(Mirror(), BODY, ATTRS, Lopsided(), TEARING);
    NoMetaNoHeal(Mirror(), BODY, ATTRS, AfterHeal(Mirror(), BODY, ATTRS, Lopsided(), TEARING));
  }
}
