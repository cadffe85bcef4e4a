/**
 * The Reed-Solomon block codec (src/erasure/codec.rs). The library behind it is a
 * parameter: any systematic code in which K of the N = K + M shards determine all
 * of them. `XorCode` gives one such code for every K, so the law can be met.
 */
module Codec {
  import opened Wrappers

  type Byte = bv8
  type Shard = seq<Byte>

  datatype CodecError = TooManyMissing | BadShardLen

  /** The library: parity of K equal-length data shards, and recovery of missing shards. */
  datatype Code = Code(k: nat, m: nat, parity: seq<Shard> -> seq<Shard>, recover: seq<Option<Shard>> -> Option<seq<Shard>>) {
    function N(): nat { k + m }
  }

  predicate Uniform(shards: seq<Shard>, count: nat, len: nat) {
    |shards| == count && forall i :: 0 <= i < |shards| ==> |shards[i]| == len
  }

  /** Number of available shards. */
  function Present(slots: seq<Option<Shard>>): nat {
    if slots == [] then 0 else (if slots[0].Some? then 1 else 0) + Present(slots[1..])
  }

  /** What is available agrees with the full set of shards. */
  predicate PartOf(slots: seq<Option<Shard>>, full: seq<Shard>) {
    |slots| == |full| && forall i :: 0 <= i < |slots| && slots[i].Some? ==> slots[i].value == full[i]
  }

  function Encoded(c: Code, data: seq<Shard>): seq<Shard> {
    data + c.parity(data)
  }

  /** The law of the library. */
  ghost predicate Mds(c: Code) {
    && c.k >= 1 && c.m >= 1 && c.k + c.m <= 256
    && (forall data, len: nat :: len >= 1 && Uniform(data, c.k, len) ==> Uniform(c.parity(data), c.m, len))
    && (forall data, len: nat, slots ::
          (len >= 1 && Uniform(data, c.k, len) && PartOf(slots, Encoded(c, data)) && Present(slots) >= c.k)
          ==> c.recover(slots) == Some(Encoded(c, data)))
  }

  // ---------------------------------------------------------------------------
  // Blocks and shards
  // ---------------------------------------------------------------------------

  /** Bytes per shard: the block divided by K, rounded up, at least one. */
  function ShardLen(k: nat, blockLen: nat): (r: nat)
    requires k >= 1
    ensures r >= 1 && r * k >= blockLen
    ensures blockLen >= 1 ==> (r - 1) * k < blockLen
  {
    var up := (blockLen + k - 1) / k;
    CeilBounds(blockLen, k);
    if up == 0 then 1 else up
  }

  lemma CeilBounds(n: nat, k: nat)
    requires k >= 1
    ensures var up := (n + k - 1) / k; up * k >= n && (up >= 1 ==> (up - 1) * k < n) && (up == 0 <==> n == 0)
  {
    var up := (n + k - 1) / k;
    assert n + k - 1 == up * k + (n + k - 1) % k;
    assert up == 0 ==> up * k == 0;
  }

  /** Piece `i` of the zero-padded block. */
  function DataShard(block: seq<Byte>, slen: nat, i: nat): (s: Shard)
    ensures |s| == slen
  {
    seq(slen, j requires 0 <= j < slen => if i * slen + j < |block| then block[i * slen + j] else 0)
  }

  function DataShards(k: nat, block: seq<Byte>): (d: seq<Shard>)
    requires k >= 1
    ensures Uniform(d, k, ShardLen(k, |block|))
  {
    seq(k, i requires 0 <= i < k => DataShard(block, ShardLen(k, |block|), i))
  }

  /** The N shards of a block: K pieces of its bytes and their parity. */
  function Shards(c: Code, block: seq<Byte>): seq<Shard>
    requires c.k >= 1
  {
    Encoded(c, DataShards(c.k, block))
  }

  lemma ShardsUniform(c: Code, block: seq<Byte>)
    requires Mds(c)
    ensures Uniform(Shards(c, block), c.N(), ShardLen(c.k, |block|))
  {
    var data := DataShards(c.k, block);
    assert Uniform(c.parity(data), c.m, ShardLen(c.k, |block|));
  }

  function Join(shards: seq<Shard>): seq<Byte> {
    if shards == [] then [] else Join(shards[..|shards| - 1]) + shards[|shards| - 1]
  }

  lemma {:induction false} JoinPieces(block: seq<Byte>, slen: nat, n: nat)
    requires slen >= 1
    ensures var pieces := seq(n, i requires 0 <= i < n => DataShard(block, slen, i));
            && |Join(pieces)| == n * slen
            && forall p :: 0 <= p < n * slen ==> Join(pieces)[p] == if p < |block| then block[p] else 0
  {
    if n > 0 {
      var pieces := seq(n, i requires 0 <= i < n => DataShard(block, slen, i));
      var shorter := seq(n - 1, i requires 0 <= i < n - 1 => DataShard(block, slen, i));
      assert pieces[..n - 1] == shorter;
      JoinPieces(block, slen, n - 1);
      assert n * slen == (n - 1) * slen + slen;
      forall p | (n - 1) * slen <= p < n * slen ensures Join(pieces)[p] == if p < |block| then block[p] else 0 {
        assert Join(pieces)[p] == DataShard(block, slen, n - 1)[p - (n - 1) * slen];
      }
    }
  }

  /** The data shards joined are the block and zeros behind it. */
  lemma JoinDataShards(k: nat, block: seq<Byte>)
    requires k >= 1
    ensures |Join(DataShards(k, block))| >= |block|
    ensures Join(DataShards(k, block))[..|block|] == block
    ensures forall p :: |block| <= p < |Join(DataShards(k, block))| ==> Join(DataShards(k, block))[p] == 0
  {
    var slen := ShardLen(k, |block|);
    JoinPieces(block, slen, k);
    assert DataShards(k, block) == seq(k, i requires 0 <= i < k => DataShard(block, slen, i));
    assert k * slen == slen * k;
  }

  /** Split a block into K padded pieces in a loop and let the library fill the parity. */
  method EncodeBlock(c: Code, block: seq<Byte>) returns (shards: seq<Shard>)
    requires Mds(c)
    ensures shards == Shards(c, block)
    ensures Uniform(shards, c.N(), ShardLen(c.k, |block|))
  {
    var slen := ShardLen(c.k, |block|);
    var data: seq<Shard> := [];
    for i := 0 to c.k
      invariant |data| == i
      invariant forall j :: 0 <= j < i ==> data[j] == DataShard(block, slen, j)
    {
      var shard := seq(slen, _ => 0);
      var start := i * slen;
      if start < |block| {
        var end := if start + slen < |block| then start + slen else |block|;
        shard := block[start..end] + shard[end - start..];
      }
      assert shard == DataShard(block, slen, i);
      data := data + [shard];
    }
    assert data == DataShards(c.k, block);
    shards := data + c.parity(data);
    ShardsUniform(c, block);
  }

  /** What reconstruction returns for the slots of one block. */
  function Rebuilt(c: Code, slots: seq<Option<Shard>>, blockLen: nat): Result<seq<Byte>, CodecError>
    requires c.k >= 1
  {
    if |slots| != c.N() then Failure(BadShardLen)
    else if Present(slots) < c.k then Failure(TooManyMissing)
    else match c.recover(slots)
      case None => Failure(TooManyMissing)
      case Some(full) =>
        if |full| < c.k || exists i :: 0 <= i < c.k && |full[i]| != ShardLen(c.k, blockLen) then Failure(BadShardLen)
        else
          JoinLength(full[..c.k], ShardLen(c.k, blockLen));
          Success(Join(full[..c.k])[..blockLen])
  }

  lemma {:induction false} JoinLength(shards: seq<Shard>, slen: nat)
    requires forall i :: 0 <= i < |shards| ==> |shards[i]| == slen
    ensures |Join(shards)| == |shards| * slen == slen * |shards|
  {
    if shards != [] {
      var n := |shards| - 1;
      JoinLength(shards[..n], slen);
      OneMore(n, slen);
    }
  }

  lemma OneMore(n: nat, slen: nat)
    ensures (n + 1) * slen == n * slen + slen == slen * (n + 1)
  {
  }

  /** Recover the missing shards, append the data shards, cut off the padding. */
  method ReconstructBlock(c: Code, slots: seq<Option<Shard>>, blockLen: nat) returns (r: Result<seq<Byte>, CodecError>)
    requires c.k >= 1
    ensures r == Rebuilt(c, slots, blockLen)
    ensures |slots| != c.N() ==> r == Failure(BadShardLen)
    ensures |slots| == c.N() && Present(slots) < c.k ==> r == Failure(TooManyMissing)
  {
    if |slots| != c.N() { return Failure(BadShardLen); }
    if Present(slots) < c.k { return Failure(TooManyMissing); }
    var full := c.recover(slots);
    if full.None? { return Failure(TooManyMissing); }
    var slen := ShardLen(c.k, blockLen);
    if |full.value| < c.k { return Failure(BadShardLen); }
    var out: seq<Byte> := [];
    for i := 0 to c.k
      invariant forall j :: 0 <= j < i ==> |full.value[j]| == slen
      invariant out == Join(full.value[..i])
    {
      var s := full.value[i];
      if |s| != slen { return Failure(BadShardLen); }
      assert full.value[..i + 1][..i] == full.value[..i];
      out := out + s;
    }
    JoinLength(full.value[..c.k], slen);
    r := Success(out[..blockLen]);
  }

  /**
   * Encoding then reconstructing is the identity, for every K, M, block and length,
   * whichever K shards survive; with fewer than K it is refused.
   */
  lemma RoundTrip(c: Code, block: seq<Byte>, slots: seq<Option<Shard>>)
    requires Mds(c) && PartOf(slots, Shards(c, block))
    ensures Rebuilt(c, slots, |block|) == if Present(slots) >= c.k then Success(block) else Failure(TooManyMissing)
  {
    ShardsUniform(c, block);
    var data := DataShards(c.k, block);
    if Present(slots) >= c.k {
      assert c.recover(slots) == Some(Encoded(c, data));
      assert Encoded(c, data)[..c.k] == data;
      JoinDataShards(c.k, block);
    }
  }
}

/** Single parity by exclusive or: an instance of the codec law for every K. */
module XorCode {
  import opened Wrappers
  import opened Codec

  function Xor(a: Shard, b: Shard): Shard
    requires |a| == |b|
  {
    seq(|a|, i requires 0 <= i < |a| => a[i] ^ b[i])
  }

  function Zero(len: nat): Shard {
    seq(len, _ => 0)
  }

  function XorAll(shards: seq<Shard>, len: nat): (r: Shard)
    ensures |r| == len
  {
    if shards == [] || |shards[0]| != len then Zero(len)
    else Xor(shards[0], XorAll(shards[1..], len))
  }

  function Values(slots: seq<Option<Shard>>): seq<Shard> {
    if slots == [] then []
    else if slots[0].Some? then [slots[0].value] + Values(slots[1..])
    else Values(slots[1..])
  }

  /** Fill the missing slots with `s`. */
  function Fill(slots: seq<Option<Shard>>, s: Shard): (r: seq<Shard>)
    ensures |r| == |slots|
  {
    seq(|slots|, i requires 0 <= i < |slots| => slots[i].GetOr(s))
  }

  function LenOf(shards: seq<Shard>): nat {
    if shards == [] then 0 else |shards[0]|
  }

  function Single(k: nat): Code {
    Code(k, 1,
         data => [XorAll(data, LenOf(data))],
         slots => if Present(slots) + 1 < |slots| then None
                  else Some(Fill(slots, XorAll(Values(slots), LenOf(Values(slots))))))
  }

  lemma XorLaws(a: Shard, b: Shard, c: Shard)
    requires |a| == |b| == |c|
    ensures Xor(a, Xor(b, c)) == Xor(b, Xor(a, c))
    ensures Xor(a, Xor(a, b)) == b
    ensures Xor(a, a) == Zero(|a|) && Xor(a, Zero(|a|)) == a
  {
    forall i | 0 <= i < |a|
      ensures a[i] ^ (b[i] ^ c[i]) == b[i] ^ (a[i] ^ c[i])
      ensures a[i] ^ (a[i] ^ b[i]) == b[i]
      ensures a[i] ^ a[i] == 0 && a[i] ^ 0 == a[i]
    {
      ByteLaws(a[i], b[i], c[i]);
    }
  }

  lemma ByteLaws(a: Byte, b: Byte, c: Byte)
    ensures a ^ (b ^ c) == b ^ (a ^ c)
    ensures a ^ (a ^ b) == b
    ensures a ^ a == 0 && a ^ 0 == a
  {
  }

  /** A complete set of shards, parity included, cancels out. */
  lemma {:induction false} XorAppend(shards: seq<Shard>, s: Shard, len: nat)
    requires Uniform(shards, |shards|, len) && |s| == len
    ensures XorAll(shards + [s], len) == Xor(s, XorAll(shards, len))
  {
    if shards == [] {
      assert (shards + [s])[1..] == [];
    } else {
      assert (shards + [s])[1..] == shards[1..] + [s];
      XorAppend(shards[1..], s, len);
      XorLaws(shards[0], s, XorAll(shards[1..], len));
    }
  }

  /** With shard `i` missing, the others add up to it and the total. */
  lemma {:induction false} XorMissing(full: seq<Shard>, slots: seq<Option<Shard>>, len: nat, i: nat)
    requires Uniform(full, |full|, len) && PartOf(slots, full) && i < |full| && slots[i].None?
    requires forall j :: 0 <= j < |full| && j != i ==> slots[j].Some?
    ensures XorAll(Values(slots), len) == Xor(full[i], XorAll(full, len))
  {
    if i == 0 {
      ValuesAll(slots[1..], full[1..]);
      XorLaws(full[0], XorAll(full[1..], len), full[0]);
    } else {
      XorMissing(full[1..], slots[1..], len, i - 1);
      assert Values(slots)[1..] == Values(slots[1..]);
      XorLaws(full[0], full[i], XorAll(full[1..], len));
    }
  }

  lemma {:induction false} ValuesAll(slots: seq<Option<Shard>>, full: seq<Shard>)
    requires PartOf(slots, full) && forall j :: 0 <= j < |slots| ==> slots[j].Some?
    ensures Values(slots) == full && Present(slots) == |slots|
  {
    if slots != [] {
      ValuesAll(slots[1..], full[1..]);
    }
  }

  lemma {:induction false} ValuesUniform(slots: seq<Option<Shard>>, full: seq<Shard>, len: nat)
    requires PartOf(slots, full) && Uniform(full, |full|, len)
    ensures |Values(slots)| == Present(slots) <= |slots|
    ensures Uniform(Values(slots), Present(slots), len)
    ensures Present(slots) + 1 >= |slots| ==> forall i, j :: 0 <= i < j < |slots| ==> slots[i].Some? || slots[j].Some?
    ensures Present(slots) == |slots| ==> forall i :: 0 <= i < |slots| ==> slots[i].Some?
  {
    if slots != [] {
      ValuesUniform(slots[1..], full[1..], len);
      if Present(slots) == |slots| {
        assert forall i :: 1 <= i < |slots| ==> slots[i] == slots[1..][i - 1];
      }
      if Present(slots) + 1 >= |slots| {
        forall i, j | 0 <= i < j < |slots| ensures slots[i].Some? || slots[j].Some? {
          assert slots[j] == slots[1..][j - 1];
          if i > 0 { assert slots[i] == slots[1..][i - 1]; }
        }
      }
    }
  }

  lemma SingleRecovers(k: nat, data: seq<Shard>, len: nat, slots: seq<Option<Shard>>)
    requires k >= 1 && len >= 1 && Uniform(data, k, len)
    requires PartOf(slots, Encoded(Single(k), data)) && Present(slots) >= k
    ensures Single(k).recover(slots) == Some(Encoded(Single(k), data))
  {
    var full := Encoded(Single(k), data);
    assert LenOf(data) == len;
    assert full == data + [XorAll(data, len)];
    ValuesUniform(slots, full, len);
    XorAppend(data, XorAll(data, len), len);
    XorLaws(XorAll(data, len), XorAll(data, len), XorAll(data, len));
    assert XorAll(full, len) == Zero(len);
    var values := Values(slots);
    assert LenOf(values) == len;
    if i :| 0 <= i < |slots| && slots[i].None? {
      XorMissing(full, slots, len, i);
      XorLaws(full[i], full[i], full[i]);
      assert Fill(slots, XorAll(values, len)) == full;
    } else {
      assert Fill(slots, XorAll(values, len)) == full;
    }
  }

  /** The law of the codec holds of single parity. */
  lemma SingleIsMds(k: nat)
    requires 1 <= k <= 255
    ensures Mds(Single(k))
  {
    var c := Single(k);
    forall data, len: nat, slots | len >= 1 && Uniform(data, c.k, len)
        && PartOf(slots, Encoded(c, data)) && Present(slots) >= c.k
      ensures c.recover(slots) == Some(Encoded(c, data))
    {
      SingleRecovers(k, data, len, slots);
    }
  }
}
