/**
 * One object of the erasure store (src/erasure/store.rs): its stored bytes cut into
 * blocks, each block into N shards, shard d of every block appended on drive d. The
 * metadata, replicated on every drive, has a digest per drive and block.
 *
 * The digest is any injective function (BLAKE3 in the source).
 */
module Sharding {
  import opened Wrappers
  import opened Codec

  datatype Attributes = Attributes(etag: string, contentType: string, encrypted: bool, lastModified: int)

  datatype XlMeta<D> = XlMeta(data: nat, parity: nat, blockSize: nat, storedSize: nat, attrs: Attributes,
                              checksums: seq<seq<D>>)

  /** The files of the object on one drive; an unreadable metadata file counts as missing. */
  datatype Drive<D> = Drive(part: Option<seq<Byte>>, meta: Option<XlMeta<D>>)

  /** The codec, block size and digest of a pool. */
  datatype Setup<!D> = Setup(code: Code, blockSize: nat, digest: Shard -> D)

  ghost predicate Proper<D>(s: Setup<D>) {
    && Mds(s.code) && s.blockSize >= 1
    && (forall a, b :: s.digest(a) == s.digest(b) ==> a == b)
  }

  lemma ProperShape<D>(s: Setup<D>)
    requires Proper(s)
    ensures s.code.k >= 1 && s.code.m >= 1 && s.blockSize >= 1
  {
  }

  // ---------------------------------------------------------------------------
  // Layout
  // ---------------------------------------------------------------------------

  /** Number of blocks; an empty object has one empty block. */
  function NBlocks(stored: nat, bs: nat): (n: nat)
    requires bs >= 1
    ensures n >= 1 && n * bs >= stored
    ensures stored > 0 ==> (n - 1) * bs < stored
  {
    CeilBounds(stored, bs);
    if stored == 0 then 1 else (stored + bs - 1) / bs
  }

  function BlockLen(stored: nat, bs: nat, b: nat): (len: nat)
    requires bs >= 1 && b < NBlocks(stored, bs)
    ensures b * bs + len <= stored && len <= bs
    ensures b + 1 < NBlocks(stored, bs) ==> len == bs
    ensures b + 1 == NBlocks(stored, bs) ==> b * bs + len == stored
  {
    BlockFits(stored, bs, b);
    if stored == 0 then 0
    else if b == NBlocks(stored, bs) - 1 then stored - b * bs
    else bs
  }

  lemma BlockFits(stored: nat, bs: nat, b: nat)
    requires bs >= 1 && b < NBlocks(stored, bs)
    ensures stored > 0 ==> b * bs < stored
    ensures stored == 0 ==> b == 0
    ensures b + 1 < NBlocks(stored, bs) ==> (b + 1) * bs <= stored
    ensures b + 1 == NBlocks(stored, bs) ==> stored - b * bs <= bs
  {
    var n := NBlocks(stored, bs);
    MulMono(b, n - 1, bs);
    if b + 1 < n { MulMono(b + 1, n - 1, bs); }
    assert n * bs == (n - 1) * bs + bs;
  }

  lemma MulMono(a: int, b: int, c: nat)
    requires a <= b
    ensures a * c <= b * c
  {
  }

  function Block(body: seq<Byte>, bs: nat, b: nat): (r: seq<Byte>)
    requires bs >= 1 && b < NBlocks(|body|, bs)
    ensures |r| == BlockLen(|body|, bs, b)
  {
    body[b * bs..b * bs + BlockLen(|body|, bs, b)]
  }

  /** Running byte position of block `b` in every shard stream, as reader and healer advance it. */
  function Offset(k: nat, stored: nat, bs: nat, b: nat): nat
    requires k >= 1 && bs >= 1 && b <= NBlocks(stored, bs)
  {
    if b == 0 then 0
    else Offset(k, stored, bs, b - 1) + ShardLen(k, BlockLen(stored, bs, b - 1))
  }

  /** Bytes covered by the first `b` blocks. */
  function Upto(stored: nat, bs: nat, b: nat): nat {
    if b * bs <= stored then b * bs else stored
  }

  lemma UptoBlocks(stored: nat, bs: nat, b: nat, e: nat)
    requires bs >= 1 && b <= e <= NBlocks(stored, bs)
    ensures Upto(stored, bs, b) <= Upto(stored, bs, e) <= stored
    ensures e == NBlocks(stored, bs) ==> Upto(stored, bs, e) == stored
    ensures b < NBlocks(stored, bs) ==>
              Upto(stored, bs, b) == b * bs && Upto(stored, bs, b + 1) == b * bs + BlockLen(stored, bs, b)
    ensures b < NBlocks(stored, bs) && stored > 0 ==> b * bs < stored
  {
    MulMono(b, e, bs);
    if b < NBlocks(stored, bs) {
      BlockFits(stored, bs, b);
      assert (b + 1) * bs == b * bs + bs;
    }
  }

  /** The shard of block `b` for drive `d`. */
  ghost function ShardAt<D>(s: Setup<D>, body: seq<Byte>, b: nat, d: nat): (r: Shard)
    requires Proper(s) && b < NBlocks(|body|, s.blockSize) && d < s.code.N()
    ensures |r| == ShardLen(s.code.k, BlockLen(|body|, s.blockSize, b))
  {
    ShardsUniform(s.code, Block(body, s.blockSize, b));
    Shards(s.code, Block(body, s.blockSize, b))[d]
  }

  /** The shards of drive `d`, block by block. */
  ghost function Column<D>(s: Setup<D>, body: seq<Byte>, d: nat): (r: seq<Shard>)
    requires Proper(s) && d < s.code.N()
    ensures |r| == NBlocks(|body|, s.blockSize)
    ensures forall b :: 0 <= b < |r| ==> r[b] == ShardAt(s, body, b, d)
    ensures Lengths(r, s.code.k, |body|, s.blockSize)
  {
    seq(NBlocks(|body|, s.blockSize), b requires 0 <= b < NBlocks(|body|, s.blockSize) => ShardAt(s, body, b, d))
  }

  predicate Lengths(col: seq<Shard>, k: nat, stored: nat, bs: nat)
    requires k >= 1 && bs >= 1
  {
    |col| <= NBlocks(stored, bs) && forall b :: 0 <= b < |col| ==> |col[b]| == ShardLen(k, BlockLen(stored, bs, b))
  }

  /** What the writer has appended on drive `d` after `n` blocks. */
  ghost function Stream<D>(s: Setup<D>, body: seq<Byte>, d: nat, n: nat): seq<Byte>
    requires Proper(s) && n <= NBlocks(|body|, s.blockSize) && d < s.code.N()
  {
    Join(Column(s, body, d)[..n])
  }

  ghost function FullStream<D>(s: Setup<D>, body: seq<Byte>, d: nat): seq<Byte>
    requires Proper(s) && d < s.code.N()
  {
    Stream(s, body, d, NBlocks(|body|, s.blockSize))
  }

  ghost function Digests<D>(s: Setup<D>, body: seq<Byte>, d: nat, n: nat): (r: seq<D>)
    requires Proper(s) && n <= NBlocks(|body|, s.blockSize) && d < s.code.N()
    ensures |r| == n && forall b :: 0 <= b < n ==> r[b] == s.digest(ShardAt(s, body, b, d))
  {
    if n == 0 then [] else Digests(s, body, d, n - 1) + [s.digest(ShardAt(s, body, n - 1, d))]
  }

  /** The metadata of an object. */
  ghost function MetaOf<D>(s: Setup<D>, body: seq<Byte>, attrs: Attributes): XlMeta<D>
    requires Proper(s)
  {
    XlMeta(s.code.k, s.code.m, s.blockSize, |body|, attrs,
           seq(s.code.N(), d requires 0 <= d < s.code.N() => Digests(s, body, d, NBlocks(|body|, s.blockSize))))
  }

  /** The position of block `b` is the running offset of reader and healer. */
  lemma {:induction false} JoinOffset(col: seq<Shard>, k: nat, stored: nat, bs: nat, b: nat)
    requires k >= 1 && bs >= 1 && Lengths(col, k, stored, bs) && b <= |col|
    ensures |Join(col[..b])| == Offset(k, stored, bs, b)
  {
    if b > 0 {
      JoinOffset(col, k, stored, bs, b - 1);
      assert col[..b][..b - 1] == col[..b - 1];
    }
  }

  /** Before the end, that offset is `b` times the shard length of a full block. */
  lemma {:induction false} OffsetClosed(k: nat, stored: nat, bs: nat, b: nat)
    requires k >= 1 && bs >= 1 && b < NBlocks(stored, bs)
    ensures Offset(k, stored, bs, b) == b * ShardLen(k, bs)
  {
    hide ShardLen, NBlocks, BlockLen;
    if b > 0 {
      OffsetClosed(k, stored, bs, b - 1);
      assert BlockLen(stored, bs, b - 1) == bs;
      assert b * ShardLen(k, bs) == (b - 1) * ShardLen(k, bs) + ShardLen(k, bs);
    }
  }

  /** Every piece of a joined stream lies at its offset. */
  lemma {:induction false} JoinSlice(col: seq<Shard>, b: nat)
    requires b < |col|
    ensures var off := |Join(col[..b])|;
            off + |col[b]| <= |Join(col)| && Join(col)[off..off + |col[b]|] == col[b]
  {
    var last := |col| - 1;
    if b < last {
      JoinSlice(col[..last], b);
      assert col[..last][..b] == col[..b];
      var off := |Join(col[..b])|;
      assert Join(col)[off..off + |col[b]|] == Join(col[..last])[off..off + |col[b]|];
    }
  }

  /** The file has piece `b` at its offset. */
  predicate PieceAt(col: seq<Shard>, part: seq<Byte>, b: nat)
    requires b < |col|
  {
    var off := |Join(col[..b])|;
    off + |col[b]| <= |part| && part[off..off + |col[b]|] == col[b]
  }

  /** A file that has every piece at its offset starts with the joined stream. */
  lemma {:induction false} JoinMatches(col: seq<Shard>, part: seq<Byte>, n: nat)
    requires n <= |col| && forall b :: 0 <= b < n ==> PieceAt(col, part, b)
    ensures Join(col[..n]) <= part
  {
    if n > 0 {
      JoinMatches(col, part, n - 1);
      assert col[..n][..n - 1] == col[..n - 1];
      assert PieceAt(col, part, n - 1);
      PrefixGrows(Join(col[..n - 1]), col[n - 1], part);
    }
  }

  lemma PrefixGrows(a: seq<Byte>, b: seq<Byte>, part: seq<Byte>)
    requires a <= part && |a| + |b| <= |part| && part[|a|..|a| + |b|] == b
    ensures a + b <= part
  {
    assert part[..|a| + |b|] == part[..|a|] + part[|a|..|a| + |b|];
  }

  /** The writer's per-drive byte position of a block, and the bytes found there. */
  lemma StreamLayout<D>(s: Setup<D>, body: seq<Byte>, d: nat, b: nat)
    requires Proper(s) && d < s.code.N() && b < NBlocks(|body|, s.blockSize)
    ensures var off := Offset(s.code.k, |body|, s.blockSize, b);
            && off == |Stream(s, body, d, b)| == b * ShardLen(s.code.k, s.blockSize)
            && off + |ShardAt(s, body, b, d)| <= |FullStream(s, body, d)|
            && FullStream(s, body, d)[off..off + |ShardAt(s, body, b, d)|] == ShardAt(s, body, b, d)
  {
    hide Proper, Mds, ShardLen, NBlocks, BlockLen, Offset, ShardAt, Column, Lengths;
    ProperShape(s);
    var col := Column(s, body, d);
    JoinOffset(col, s.code.k, |body|, s.blockSize, b);
    OffsetClosed(s.code.k, |body|, s.blockSize, b);
    JoinSlice(col, b);
    assert col[..|col|] == col;
  }

  // ---------------------------------------------------------------------------
  // Reading
  // ---------------------------------------------------------------------------

  /** A positioned read of exactly `len` bytes. */
  function ReadAt<D>(drive: Drive<D>, offset: nat, len: nat): Option<seq<Byte>> {
    if drive.part.Some? && offset + len <= |drive.part.value| then Some(drive.part.value[offset..offset + len]) else None
  }

  /** The shard of drive `d` for block `b`, if it is there and matches its digest. */
  function ReadShard<D(==)>(digest: Shard -> D, checksums: seq<seq<D>>, drive: Drive<D>, offset: nat, slen: nat, d: nat, b: nat): Option<Shard> {
    match ReadAt(drive, offset, slen)
    case None => None
    case Some(buf) =>
      if d < |checksums| && b < |checksums[d]| && checksums[d][b] == digest(buf) then Some(buf) else None
  }

  function ReadSlots<D(==)>(digest: Shard -> D, checksums: seq<seq<D>>, drives: seq<Drive<D>>, offset: nat, slen: nat, b: nat): (r: seq<Option<Shard>>)
    ensures |r| == |drives|
  {
    seq(|drives|, d requires 0 <= d < |drives| => ReadShard(digest, checksums, drives[d], offset, slen, d, b))
  }

  /** The metadata a reader goes by: the first copy it can read. */
  function FirstMeta<D>(drives: seq<Drive<D>>): Option<XlMeta<D>> {
    if |drives| == 0 then None
    else if drives[0].meta.Some? then drives[0].meta
    else FirstMeta(drives[1..])
  }

  /** It is the copy of the first drive that has one. */
  lemma {:induction false} FirstMetaAt<D>(drives: seq<Drive<D>>) returns (d: nat)
    ensures FirstMeta(drives).None? <==> forall e :: 0 <= e < |drives| ==> drives[e].meta.None?
    ensures FirstMeta(drives).Some? ==> d < |drives| && drives[d].meta == FirstMeta(drives) && forall e :: 0 <= e < d ==> drives[e].meta.None?
  {
    d := 0;
    if |drives| > 0 && drives[0].meta.None? {
      d := FirstMetaAt(drives[1..]);
      assert forall e :: 1 <= e < |drives| ==> drives[e] == drives[1..][e - 1];
      d := d + 1;
    }
  }

  /** The bytes a reader sees from block `b` on: block after block, until one cannot be rebuilt. */
  function ReadFrom<D(==)>(code: Code, digest: Shard -> D, meta: XlMeta<D>, drives: seq<Drive<D>>, b: nat): seq<Byte>
    requires code.k >= 1 && meta.blockSize >= 1 && b <= NBlocks(meta.storedSize, meta.blockSize)
    decreases NBlocks(meta.storedSize, meta.blockSize) - b
  {
    if b == NBlocks(meta.storedSize, meta.blockSize) then []
    else
      var len := BlockLen(meta.storedSize, meta.blockSize, b);
      var slots := ReadSlots(digest, meta.checksums, drives, Offset(code.k, meta.storedSize, meta.blockSize, b), ShardLen(code.k, len), b);
      match Rebuilt(code, slots, len)
      case Success(block) => block + ReadFrom(code, digest, meta, drives, b + 1)
      case Failure(_) => []
  }

  lemma ReadFromStep<D>(code: Code, digest: Shard -> D, meta: XlMeta<D>, drives: seq<Drive<D>>, b: nat)
    requires code.k >= 1 && meta.blockSize >= 1 && b < NBlocks(meta.storedSize, meta.blockSize)
    ensures var len := BlockLen(meta.storedSize, meta.blockSize, b);
            var slots := ReadSlots(digest, meta.checksums, drives, Offset(code.k, meta.storedSize, meta.blockSize, b), ShardLen(code.k, len), b);
            ReadFrom(code, digest, meta, drives, b) == match Rebuilt(code, slots, len)
                                                       case Success(block) => block + ReadFrom(code, digest, meta, drives, b + 1)
                                                       case Failure(_) => []
    ensures Offset(code.k, meta.storedSize, meta.blockSize, b + 1)
            == Offset(code.k, meta.storedSize, meta.blockSize, b) + ShardLen(code.k, BlockLen(meta.storedSize, meta.blockSize, b))
  {
  }

  lemma ReadFromEnd<D>(code: Code, digest: Shard -> D, meta: XlMeta<D>, drives: seq<Drive<D>>)
    requires code.k >= 1 && meta.blockSize >= 1
    ensures ReadFrom(code, digest, meta, drives, NBlocks(meta.storedSize, meta.blockSize)) == []
    ensures Offset(code.k, meta.storedSize, meta.blockSize, 0) == 0
  {
  }

  /** The slots of block `b` under the metadata of the object. */
  ghost function SlotsOf<D>(s: Setup<D>, body: seq<Byte>, attrs: Attributes, drives: seq<Drive<D>>, b: nat): (r: seq<Option<Shard>>)
    requires Proper(s) && b < NBlocks(|body|, s.blockSize)
    ensures |r| == |drives|
  {
    ReadSlots(s.digest, MetaOf(s, body, attrs).checksums, drives, Offset(s.code.k, |body|, s.blockSize, b),
              ShardLen(s.code.k, BlockLen(|body|, s.blockSize, b)), b)
  }

  /** Whatever is on the drives, a shard that matches its digest is the shard that was written. */
  lemma ValidShardsAreOriginal<D>(s: Setup<D>, body: seq<Byte>, attrs: Attributes, drives: seq<Drive<D>>, b: nat)
    requires Proper(s) && b < NBlocks(|body|, s.blockSize) && |drives| == s.code.N()
    ensures PartOf(SlotsOf(s, body, attrs, drives, b), Shards(s.code, Block(body, s.blockSize, b)))
  {
    ShardsUniform(s.code, Block(body, s.blockSize, b));
    var slots := SlotsOf(s, body, attrs, drives, b);
    forall d | 0 <= d < |slots| && slots[d].Some? ensures slots[d].value == Shards(s.code, Block(body, s.blockSize, b))[d] {
      assert MetaOf(s, body, attrs).checksums[d][b] == s.digest(ShardAt(s, body, b, d));
    }
  }

  /** Every block from `b` to the end keeps at least K valid shards. */
  ghost predicate Readable<D>(s: Setup<D>, body: seq<Byte>, attrs: Attributes, drives: seq<Drive<D>>, b: nat)
    requires Proper(s)
  {
    forall c :: b <= c < NBlocks(|body|, s.blockSize) ==> Present(SlotsOf(s, body, attrs, drives, c)) >= s.code.k
  }

  lemma {:induction false} ReadFromIsPrefix<D>(s: Setup<D>, body: seq<Byte>, attrs: Attributes, drives: seq<Drive<D>>, b: nat) returns (e: nat)
    requires Proper(s) && b <= NBlocks(|body|, s.blockSize) && |drives| == s.code.N()
    ensures b <= e <= NBlocks(|body|, s.blockSize)
    ensures Upto(|body|, s.blockSize, b) <= Upto(|body|, s.blockSize, e)
    ensures ReadFrom(s.code, s.digest, MetaOf(s, body, attrs), drives, b)
            == body[Upto(|body|, s.blockSize, b)..Upto(|body|, s.blockSize, e)]
    ensures e == NBlocks(|body|, s.blockSize) <==> Readable(s, body, attrs, drives, b)
    decreases NBlocks(|body|, s.blockSize) - b
  {
    hide Mds, ShardLen, NBlocks, BlockLen, Upto, Offset, ReadSlots, Shards, Rebuilt, Present;
    var n, bs := NBlocks(|body|, s.blockSize), s.blockSize;
    e := b;
    UptoBlocks(|body|, bs, b, n);
    if b < n {
      var block := Block(body, bs, b);
      var slots := SlotsOf(s, body, attrs, drives, b);
      ValidShardsAreOriginal(s, body, attrs, drives, b);
      RoundTrip(s.code, block, slots);
      UptoBlocks(|body|, bs, b, b + 1);
      if Present(slots) >= s.code.k {
        e := ReadFromIsPrefix(s, body, attrs, drives, b + 1);
        UptoBlocks(|body|, bs, b + 1, e);
        JoinRanges(body, Upto(|body|, bs, b), Upto(|body|, bs, b + 1), Upto(|body|, bs, e));
      }
    }
  }

  lemma JoinRanges(body: seq<Byte>, a: nat, b: nat, c: nat)
    requires a <= b <= c <= |body|
    ensures body[a..b] + body[b..c] == body[a..c]
  {
  }

  /**
   * Reads are never wrong, only short: whatever happened to the shard files, the
   * output is a block-aligned prefix of the stored bytes, and it is all of them if
   * and only if every block keeps K valid shards (or there was nothing to read).
   */
  lemma ReadsNeverWrong<D>(s: Setup<D>, body: seq<Byte>, attrs: Attributes, drives: seq<Drive<D>>)
    requires Proper(s) && |drives| == s.code.N()
    ensures var out := ReadFrom(s.code, s.digest, MetaOf(s, body, attrs), drives, 0);
            && out <= body
            && (out == body || |out| % s.blockSize == 0)
            && (out == body <==> body == [] || Readable(s, body, attrs, drives, 0))
  {
    hide Mds, MetaOf, ReadFrom, Readable, NBlocks;
    var blocks := ReadFromIsPrefix(s, body, attrs, drives, 0);
    UptoBlocks(|body|, s.blockSize, blocks, NBlocks(|body|, s.blockSize));
    assert Upto(|body|, s.blockSize, 0) == 0;
    WholeBlocks(blocks, s.blockSize);
  }

  lemma WholeBlocks(n: nat, bs: nat)
    requires bs >= 1
    ensures (n * bs) % bs == 0
  {
    var q, r := (n * bs) / bs, (n * bs) % bs;
    assert n * bs == q * bs + r;
    assert (n - q) * bs == r;
    if n - q >= 1 { MulMono(1, n - q, bs); }
    if n - q <= -1 { assert (q - n) * bs == -r; MulMono(1, q - n, bs); }
  }

  // ---------------------------------------------------------------------------
  // Complete drives
  // ---------------------------------------------------------------------------

  /** A drive with the whole shard stream and the metadata. */
  ghost predicate Complete<D>(s: Setup<D>, body: seq<Byte>, attrs: Attributes, drive: Drive<D>, d: nat)
    requires Proper(s) && d < s.code.N()
  {
    drive == Drive(Some(FullStream(s, body, d)), Some(MetaOf(s, body, attrs)))
  }

  /** A drive whose shard of every block matches its digest. */
  ghost predicate Verifies<D>(s: Setup<D>, body: seq<Byte>, attrs: Attributes, drives: seq<Drive<D>>, d: nat)
    requires Proper(s) && d < |drives|
  {
    forall b :: 0 <= b < NBlocks(|body|, s.blockSize) ==> SlotsOf(s, body, attrs, drives, b)[d].Some?
  }

  /** A drive verifies exactly when its part file starts with the stream that was written. */
  lemma VerifiesIffStream<D>(s: Setup<D>, body: seq<Byte>, attrs: Attributes, drives: seq<Drive<D>>, d: nat)
    requires Proper(s) && |drives| == s.code.N() && d < s.code.N()
    ensures Verifies(s, body, attrs, drives, d) <==>
              drives[d].part.Some? && FullStream(s, body, d) <= drives[d].part.value
  {
    hide Proper, Mds, ShardLen, NBlocks, BlockLen, Offset, ShardAt, ReadSlots, SlotsOf, Join, Column, Lengths;
    ProperShape(s);
    var n := NBlocks(|body|, s.blockSize);
    if drives[d].part.Some? && FullStream(s, body, d) <= drives[d].part.value {
      forall b | 0 <= b < n ensures SlotsOf(s, body, attrs, drives, b)[d].Some? {
        StreamVerifies(s, body, attrs, drives, d, b);
      }
    }
    if Verifies(s, body, attrs, drives, d) {
      VerifiedSlice(s, body, attrs, drives, d, 0);
      var col := Column(s, body, d);
      forall b | 0 <= b < n
        ensures PieceAt(col, drives[d].part.value, b)
      {
        VerifiedSlice(s, body, attrs, drives, d, b);
        JoinOffset(col, s.code.k, |body|, s.blockSize, b);
      }
      JoinMatches(col, drives[d].part.value, n);
    }
  }

  lemma StreamVerifies<D>(s: Setup<D>, body: seq<Byte>, attrs: Attributes, drives: seq<Drive<D>>, d: nat, b: nat)
    requires Proper(s) && |drives| == s.code.N() && d < s.code.N() && b < NBlocks(|body|, s.blockSize)
    requires drives[d].part.Some? && FullStream(s, body, d) <= drives[d].part.value
    ensures SlotsOf(s, body, attrs, drives, b)[d].Some?
  {
    hide Mds, ShardLen, NBlocks, BlockLen, Offset, ShardAt, FullStream, Stream;
    StreamLayout(s, body, d, b);
    var off := Offset(s.code.k, |body|, s.blockSize, b);
    var len := |ShardAt(s, body, b, d)|;
    assert drives[d].part.value[off..off + len] == FullStream(s, body, d)[off..off + len];
    assert MetaOf(s, body, attrs).checksums[d][b] == s.digest(ShardAt(s, body, b, d));
  }

  lemma VerifiedSlice<D>(s: Setup<D>, body: seq<Byte>, attrs: Attributes, drives: seq<Drive<D>>, d: nat, b: nat)
    requires Proper(s) && |drives| == s.code.N() && d < s.code.N() && b < NBlocks(|body|, s.blockSize)
    requires SlotsOf(s, body, attrs, drives, b)[d].Some?
    ensures drives[d].part.Some?
    ensures var off := Offset(s.code.k, |body|, s.blockSize, b);
            var len := |ShardAt(s, body, b, d)|;
            off + len <= |drives[d].part.value| && drives[d].part.value[off..off + len] == ShardAt(s, body, b, d)
  {
    ValidShardsAreOriginal(s, body, attrs, drives, b);
  }

  function Count(flags: seq<bool>): (n: nat)
    ensures n <= |flags|
  {
    if flags == [] then 0 else (if flags[0] then 1 else 0) + Count(flags[1..])
  }

  lemma {:induction false} CountMono(flags: seq<bool>, slots: seq<Option<Shard>>)
    requires |flags| == |slots| && forall i :: 0 <= i < |flags| && flags[i] ==> slots[i].Some?
    ensures Count(flags) <= Present(slots)
  {
    if flags != [] {
      CountMono(flags[1..], slots[1..]);
    }
  }

  /** K drives that verify are enough to read everything, whatever the others hold. */
  lemma VerifiedDrivesSuffice<D>(s: Setup<D>, body: seq<Byte>, attrs: Attributes, drives: seq<Drive<D>>, good: seq<bool>)
    requires Proper(s) && |drives| == s.code.N() && |good| == |drives|
    requires forall d :: 0 <= d < |drives| && good[d] ==> Verifies(s, body, attrs, drives, d)
    requires Count(good) >= s.code.k
    ensures Readable(s, body, attrs, drives, 0)
    ensures ReadFrom(s.code, s.digest, MetaOf(s, body, attrs), drives, 0) == body
  {
    forall b | 0 <= b < NBlocks(|body|, s.blockSize) ensures Present(SlotsOf(s, body, attrs, drives, b)) >= s.code.k {
      CountMono(good, SlotsOf(s, body, attrs, drives, b));
    }
    ReadsNeverWrong(s, body, attrs, drives);
  }
}
