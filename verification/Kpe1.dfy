/**
 * The KPE1 container of an encrypted object (src/crypto/mod.rs): a header and a chain
 * of sealed 64 KiB chunks, written and read both in a buffer and as a stream.
 */
module Kpe1 {
  import opened Wrappers
  import opened Octets
  import opened Aead
  import Streams

  const MAGIC: seq<Octet> := [0x4B, 0x50, 0x45, 0x01]
  const VERSION: Octet := 1
  const CHUNK_SIZE: nat := 65536
  const CHUNK_BLOCK: nat := 65552
  const BASE_NONCE_LEN: nat := 8

  type Dek = seq<Octet>
  type Cells = seq<Cell<Dek>>

  datatype CryptoError = Format | Decrypt | Provider

  /** The key provider: unwrap a wrapped key under the algorithm of the header. */
  type Unwrap = (Octet, seq<Octet>) -> Result<Dek, CryptoError>

  /** What is minted for one object. */
  datatype Envelope = Envelope(alg: Octet, wrapped: seq<Octet>, key: Dek, base: seq<Octet>) {
    /** The header's fields hold them: a 16-bit length and eight octets. */
    predicate Fits() {
      |wrapped| < 0x1_0000 && |base| == BASE_NONCE_LEN
    }
  }

  // ---------------------------------------------------------------------------
  // Layout
  // ---------------------------------------------------------------------------

  function HeaderOctets(e: Envelope): (r: seq<Octet>)
    ensures |r| == 8 + |e.wrapped| + |e.base|
  {
    MAGIC + [VERSION, e.alg, |e.wrapped| / 256 % 256, |e.wrapped| % 256] + e.wrapped + e.base
  }

  function Header(e: Envelope): (r: Cells)
    ensures |r| == 8 + |e.wrapped| + |e.base|
  {
    Lift(HeaderOctets(e))
  }

  function ChunkNonce(base: seq<Octet>, counter: nat): seq<Octet> {
    base + Be4(counter)
  }

  /** The sealed chunks of a plaintext, the first carrying number `c`. */
  function SealChunks(key: Dek, base: seq<Octet>, plain: seq<Octet>, c: nat): Cells
    decreases |plain|
  {
    if |plain| == 0 then []
    else
      var n := Smaller(CHUNK_SIZE, |plain|);
      Seal(key, ChunkNonce(base, c), [], plain[..n]) + SealChunks(key, base, plain[n..], c + 1)
  }

  function Container(e: Envelope, plain: seq<Octet>): Cells {
    Header(e) + SealChunks(e.key, e.base, plain, 0)
  }

  datatype Opening = Opening(plain: seq<Octet>, complete: bool)

  /** Open chunk after chunk until one is refused. */
  function OpenChunks(key: Dek, base: seq<Octet>, body: Cells, c: nat): Opening
    decreases |body|
  {
    if |body| == 0 then Opening([], true)
    else
      var n := Smaller(CHUNK_BLOCK, |body|);
      match Open(key, ChunkNonce(base, c), [], body[..n])
      case None => Opening([], false)
      case Some(text) =>
        var rest := OpenChunks(key, base, body[n..], c + 1);
        Opening(text + rest.plain, rest.complete)
  }

  datatype Head = Head(alg: Octet, wrapped: seq<Octet>, base: seq<Octet>, len: nat)

  /** The first eight octets: magic, algorithm and key length. The version octet is not looked at. */
  function ParsePrefix(cells: Cells): Option<(Octet, nat)>
    requires |cells| == 8
  {
    if !Clear(cells) || Lower(cells)[..4] != MAGIC then None
    else Some((cells[5].octet, cells[6].octet * 256 + cells[7].octet))
  }

  function ParseRest(alg: Octet, cells: Cells): Option<Head>
    requires |cells| >= BASE_NONCE_LEN
  {
    if !Clear(cells) then None
    else
      var n := |cells| - BASE_NONCE_LEN;
      Some(Head(alg, Lower(cells)[..n], Lower(cells)[n..], 8 + |cells|))
  }

  function ParseHeader(cells: Cells): Option<Head> {
    if |cells| < 8 then None
    else match ParsePrefix(cells[..8])
      case None => None
      case Some((alg, n)) =>
        if |cells| < 8 + n + BASE_NONCE_LEN then None else ParseRest(alg, cells[8..8 + n + BASE_NONCE_LEN])
  }

  lemma ParsedLength(cells: Cells)
    ensures var h := ParseHeader(cells);
            h.Some? ==> h.value.len <= |cells| && h.value.len == 8 + |h.value.wrapped| + |h.value.base| && |h.value.base| == BASE_NONCE_LEN
  {
  }

  /** What decryption of a whole buffer returns. */
  function Decrypted(unwrap: Unwrap, data: Cells): Result<seq<Octet>, CryptoError> {
    match ParseHeader(data)
    case None => Failure(Format)
    case Some(h) =>
      match unwrap(h.alg, h.wrapped)
      case Failure(e) => Failure(e)
      case Success(key) =>
        ParsedLength(data);
        var o := OpenChunks(key, h.base, data[h.len..], 0);
        if o.complete then Success(o.plain) else Failure(Decrypt)
  }

  // ---------------------------------------------------------------------------
  // Programs
  // ---------------------------------------------------------------------------

  lemma SealedStep(key: Dek, base: seq<Octet>, plain: seq<Octet>, c: nat, at: nat)
    requires at < |plain|
    ensures var n := Smaller(CHUNK_SIZE, |plain| - at);
            SealChunks(key, base, plain[at..], c)
            == Seal(key, ChunkNonce(base, c), [], plain[at..at + n]) + SealChunks(key, base, plain[at + n..], c + 1)
  {
    var n := Smaller(CHUNK_SIZE, |plain| - at);
    assert plain[at..][..n] == plain[at..at + n] && plain[at..][n..] == plain[at + n..];
  }

  lemma SealedEnd(key: Dek, base: seq<Octet>, plain: seq<Octet>, c: nat)
    ensures SealChunks(key, base, plain[|plain|..], c) == [] && plain[0..] == plain
  {
  }

  lemma NonceWraps(base: seq<Octet>, c: nat)
    ensures ChunkNonce(base, Wrapped(c)) == ChunkNonce(base, c)
  {
    WrappedCounter(c);
  }

  /** Seal a buffer chunk by chunk. */
  method EncryptObject(e: Envelope, plaintext: seq<Octet>) returns (out: Cells)
    ensures out == Container(e, plaintext)
  {
    hide Seal, SealChunks, ChunkNonce, Header;
    out := Header(e);
    var offset, i := 0, 0;
    ghost var whole := SealChunks(e.key, e.base, plaintext, 0);
    SealedEnd(e.key, e.base, plaintext, 0);
    while offset < |plaintext|
      invariant offset <= |plaintext|
      invariant out + SealChunks(e.key, e.base, plaintext[offset..], i) == Header(e) + whole
      decreases |plaintext| - offset
    {
      var n := Smaller(CHUNK_SIZE, |plaintext| - offset);
      SealedStep(e.key, e.base, plaintext, i, offset);
      NonceWraps(e.base, i);
      out := out + Seal(e.key, ChunkNonce(e.base, Wrapped(i)), [], plaintext[offset..offset + n]);
      offset, i := offset + n, i + 1;
    }
    SealedEnd(e.key, e.base, plaintext, i);
  }

  /** The part of a plaintext that survives a source that fails: its whole chunks. */
  function WholeChunks(n: nat): (r: nat)
    ensures r <= n
  {
    n / CHUNK_SIZE * CHUNK_SIZE
  }

  /**
   * Seal a stream, however it is fragmented. The container is the buffered one; a
   * source that fails yields the container of its whole chunks, with no sign of error.
   */
  method EncryptingReader(e: Envelope, src: Streams.Reader<Octet>) returns (out: Cells)
    modifies src`rest
    ensures !src.fails ==> out == Container(e, old(src.rest))
    ensures src.fails ==> out == Container(e, old(src.rest)[..WholeChunks(|old(src.rest)|)])
  {
    hide Seal, SealChunks, ChunkNonce, Header, WholeChunks, Smaller, Wrapped;
    WrappedStart();
    ghost var all := src.rest;
    ghost var plain := if src.fails then all[..WholeChunks(|all|)] else all;
    ghost var whole := Header(e) + SealChunks(e.key, e.base, plain, 0);
    out := Header(e);
    var counter: nat := 0;
    ghost var at: nat, i: nat := 0, 0;
    SealedEnd(e.key, e.base, plain, 0);
    while true
      invariant at <= |plain| && at == i * CHUNK_SIZE && src.rest == all[at..] && counter == Wrapped(i)
      invariant out + SealChunks(e.key, e.base, plain[at..], i) == whole
      decreases |all| - at
    {
      var chunk := src.ReadFull(CHUNK_SIZE);
      if chunk.Failure? {
        NoMoreChunks(|all|, i);
        SealedEnd(e.key, e.base, plain, i);
        return;
      }
      var buf := chunk.value;
      if |buf| == 0 { break; }
      ChunkFollows(all, src.fails, i, |buf|);
      NextPiece(all, plain, at, buf, src.rest);
      SealedStep(e.key, e.base, plain, i, at);
      NonceWraps(e.base, i);
      out := out + Seal(e.key, ChunkNonce(e.base, counter), [], buf);
      WrappedNext(i);
      counter := Wrapped(counter + 1);
      at, i := at + |buf|, i + 1;
      if |buf| < CHUNK_SIZE { break; }
    }
    SealedEnd(e.key, e.base, plain, i);
  }

  /** The piece just read continues the part already taken. */
  lemma NextPiece<T>(all: seq<T>, part: seq<T>, at: nat, piece: seq<T>, rest: seq<T>)
    requires part <= all && at + |piece| <= |part| && piece + rest == all[at..]
    ensures piece == part[at..at + |piece|] && rest == all[at + |piece|..]
  {
    assert all[at..][..|piece|] == piece && all[at..][|piece|..] == rest;
    assert part[at..at + |piece|] == all[at..at + |piece|];
  }

  lemma NoMoreChunks(n: nat, i: nat)
    requires i * CHUNK_SIZE <= WholeChunks(n) && n - i * CHUNK_SIZE < CHUNK_SIZE
    ensures i * CHUNK_SIZE == WholeChunks(n)
  {
  }

  lemma ChunkFollows(all: seq<Octet>, fails: bool, i: nat, n: nat)
    requires i * CHUNK_SIZE < |all| && n == Smaller(CHUNK_SIZE, |all| - i * CHUNK_SIZE) && (fails ==> n == CHUNK_SIZE)
    ensures var len := if fails then WholeChunks(|all|) else |all|; i * CHUNK_SIZE < len && n == Smaller(CHUNK_SIZE, len - i * CHUNK_SIZE)
  {
  }

  lemma OpenedStep(key: Dek, base: seq<Octet>, body: Cells, c: nat, at: nat)
    requires at < |body|
    ensures var n := Smaller(CHUNK_BLOCK, |body| - at);
            OpenChunks(key, base, body[at..], c)
            == match Open(key, ChunkNonce(base, c), [], body[at..at + n])
               case None => Opening([], false)
               case Some(text) =>
                 var rest := OpenChunks(key, base, body[at + n..], c + 1);
                 Opening(text + rest.plain, rest.complete)
  {
    var n := Smaller(CHUNK_BLOCK, |body| - at);
    assert body[at..][..n] == body[at..at + n] && body[at..][n..] == body[at + n..];
  }

  lemma OpenedEnd(key: Dek, base: seq<Octet>, body: Cells, c: nat)
    ensures OpenChunks(key, base, body[|body|..], c) == Opening([], true)
    ensures body[0..] == body
  {
    hide Open, ChunkNonce;
    assert |body[|body|..]| == 0;
  }

  /** Decrypt a whole buffer. */
  method DecryptObject(unwrap: Unwrap, data: Cells) returns (r: Result<seq<Octet>, CryptoError>)
    ensures r == Decrypted(unwrap, data)
  {
    hide Open, OpenChunks, ChunkNonce, ParseHeader;
    var h := ParseHeader(data);
    ParsedLength(data);
    if h.None? { return Failure(Format); }
    var dek := unwrap(h.value.alg, h.value.wrapped);
    if dek.Failure? { return Failure(dek.error); }
    var body, base := data[h.value.len..], h.value.base;
    var out: seq<Octet> := [];
    var offset, i := 0, 0;
    var counter: nat := 0;
    ghost var whole := OpenChunks(dek.value, base, body, 0);
    OpenedEnd(dek.value, base, body, 0);
    while offset < |body|
      invariant offset <= |body| && counter == Wrapped(i)
      invariant var rest := OpenChunks(dek.value, base, body[offset..], i);
                whole == Opening(out + rest.plain, rest.complete)
      decreases |body| - offset
    {
      var end := Smaller(offset + CHUNK_BLOCK, |body|);
      OpenedStep(dek.value, base, body, i, offset);
      NonceWraps(base, i);
      var text := Open(dek.value, ChunkNonce(base, counter), [], body[offset..end]);
      if text.None? {
        assert !whole.complete;
        return Failure(Decrypt);
      }
      out := out + text.value;
      offset, i, counter := end, i + 1, Wrapped(counter + 1);
    }
    OpenedEnd(dek.value, base, body, i);
    assert out + [] == out;
    assert whole == Opening(out, true);
    r := Success(out);
  }

  /** Read and parse the header of a stream, and unwrap its key. */
  method OpenStreamHeader(unwrap: Unwrap, src: Streams.Reader<Cell<Dek>>) returns (r: Result<(Dek, seq<Octet>), CryptoError>)
    modifies src`rest
    ensures var h := ParseHeader(old(src.rest));
            if h.None? then r == Failure(Format)
            else match unwrap(h.value.alg, h.value.wrapped)
                 case Failure(e) => r == Failure(e)
                 case Success(key) => r == Success((key, h.value.base)) && h.value.len <= |old(src.rest)| && src.rest == old(src.rest)[h.value.len..]
  {
    ghost var all := src.rest;
    ParsedLength(all);
    var prefix := src.ReadFull(8);
    if prefix.Failure? || |prefix.value| < 8 { return Failure(Format); }
    assert prefix.value == all[..8];
    var p := ParsePrefix(prefix.value);
    if p.None? { return Failure(Format); }
    var want := p.value.1 + BASE_NONCE_LEN;
    var rest := src.ReadFull(want);
    if rest.Failure? || |rest.value| < want { return Failure(Format); }
    assert rest.value == all[8..8 + want];
    var h := ParseRest(p.value.0, rest.value);
    if h.None? { return Failure(Format); }
    var dek := unwrap(h.value.alg, h.value.wrapped);
    if dek.Failure? { return Failure(dek.error); }
    r := Success((dek.value, h.value.base));
  }

  function WholeBlocks(n: nat): (r: nat)
    ensures r <= n
  {
    n / CHUNK_BLOCK * CHUNK_BLOCK
  }

  /**
   * Decrypt the chunks of a stream, however it is fragmented: exactly the leading
   * chunks that open; of a source that fails, those among its whole blocks.
   */
  method StreamChunks(src: Streams.Reader<Cell<Dek>>, key: Dek, base: seq<Octet>) returns (out: seq<Octet>)
    modifies src`rest
    ensures !src.fails ==> out == OpenChunks(key, base, old(src.rest), 0).plain
    ensures src.fails ==> out == OpenChunks(key, base, old(src.rest)[..WholeBlocks(|old(src.rest)|)], 0).plain
  {
    hide Open, OpenChunks, ChunkNonce, WholeBlocks, Smaller, Wrapped;
    WrappedStart();
    ghost var all := src.rest;
    ghost var body := if src.fails then all[..WholeBlocks(|all|)] else all;
    ghost var whole := OpenChunks(key, base, body, 0).plain;
    out := [];
    var counter: nat := 0;
    ghost var at: nat, i: nat := 0, 0;
    OpenedEnd(key, base, body, 0);
    while true
      invariant at <= |body| && at == i * CHUNK_BLOCK && src.rest == all[at..] && counter == Wrapped(i)
      invariant out + OpenChunks(key, base, body[at..], i).plain == whole
      decreases |all| - at
    {
      var block := src.ReadFull(CHUNK_BLOCK);
      if block.Failure? {
        NoMoreBlocks(|all|, i);
        OpenedEnd(key, base, body, i);
        return;
      }
      var buf := block.value;
      if |buf| == 0 { break; }
      BlockFollows(all, src.fails, i, |buf|);
      NextPiece(all, body, at, buf, src.rest);
      OpenedStep(key, base, body, i, at);
      NonceWraps(base, i);
      var text := Open(key, ChunkNonce(base, counter), [], buf);
      if text.None? { return; }
      out := out + text.value;
      WrappedNext(i);
      counter := Wrapped(counter + 1);
      at, i := at + |buf|, i + 1;
      if |buf| < CHUNK_BLOCK { break; }
    }
    OpenedEnd(key, base, body, i);
  }

  lemma NoMoreBlocks(n: nat, i: nat)
    requires i * CHUNK_BLOCK <= WholeBlocks(n) && n - i * CHUNK_BLOCK < CHUNK_BLOCK
    ensures i * CHUNK_BLOCK == WholeBlocks(n)
  {
  }

  lemma BlockFollows(all: Cells, fails: bool, i: nat, n: nat)
    requires i * CHUNK_BLOCK < |all| && n == Smaller(CHUNK_BLOCK, |all| - i * CHUNK_BLOCK) && (fails ==> n == CHUNK_BLOCK)
    ensures var len := if fails then WholeBlocks(|all|) else |all|; i * CHUNK_BLOCK < len && n == Smaller(CHUNK_BLOCK, len - i * CHUNK_BLOCK)
  {
  }

  // ---------------------------------------------------------------------------
  // Lengths
  // ---------------------------------------------------------------------------

  function Chunks(n: nat): nat {
    (n + CHUNK_SIZE - 1) / CHUNK_SIZE
  }

  lemma {:induction false} SealedLength(key: Dek, base: seq<Octet>, plain: seq<Octet>, c: nat)
    ensures |SealChunks(key, base, plain, c)| == |plain| + TAG_LEN * Chunks(|plain|)
    decreases |plain|
  {
    if |plain| > 0 {
      hide Seal, ChunkNonce;
      var n := Smaller(CHUNK_SIZE, |plain|);
      SealedLength(key, base, plain[n..], c + 1);
    }
  }

  /** The plaintext length of a stored object of `stored` octets. */
  function PlaintextLen(stored: nat, headerLen: nat): nat {
    if stored <= headerLen then 0
    else
      var body := stored - headerLen;
      var full, rem := body / CHUNK_BLOCK, body % CHUNK_BLOCK;
      full * CHUNK_SIZE + if rem >= TAG_LEN then rem - TAG_LEN else 0
  }

  /** The size computed from a container's length is the plaintext's, at every length. */
  lemma PlaintextLenInverts(e: Envelope, plain: seq<Octet>)
    ensures PlaintextLen(|Container(e, plain)|, |Header(e)|) == |plain|
  {
    SealedLength(e.key, e.base, plain, 0);
    hide Header, SealChunks;
    var n, c := |plain|, Chunks(|plain|);
    var q, r := n / CHUNK_SIZE, n % CHUNK_SIZE;
    assert n == q * CHUNK_SIZE + r;
    if r == 0 {
      assert c == q;
      assert n + TAG_LEN * c == q * CHUNK_BLOCK;
      assert q * CHUNK_BLOCK / CHUNK_BLOCK == q;
    } else {
      assert c == q + 1;
      assert n + TAG_LEN * c == q * CHUNK_BLOCK + (r + TAG_LEN);
      assert (q * CHUNK_BLOCK + (r + TAG_LEN)) / CHUNK_BLOCK == if r + TAG_LEN == CHUNK_BLOCK then q + 1 else q;
    }
  }

  // ---------------------------------------------------------------------------
  // Decryption
  // ---------------------------------------------------------------------------

  /** One sealed chunk opens to itself. */
  lemma OpenFirst(key: Dek, base: seq<Octet>, text: seq<Octet>, rest: Cells, c: nat)
    requires |text| <= CHUNK_SIZE && (rest == [] || |text| == CHUNK_SIZE)
    ensures var o := OpenChunks(key, base, rest, c + 1);
            OpenChunks(key, base, Seal(key, ChunkNonce(base, c), [], text) + rest, c) == Opening(text + o.plain, o.complete)
  {
    hide ChunkNonce;
    var first := Seal(key, ChunkNonce(base, c), [], text);
    var body := first + rest;
    var n := Smaller(CHUNK_BLOCK, |body|);
    assert body[..n] == first && body[n..] == rest;
    OpenIff(key, ChunkNonce(base, c), [], first, text);
  }

  /**
   * Decrypting any leading part of a sealed body. The whole gives the whole plaintext;
   * a part gives the plaintext of its whole chunks, and the end looks complete exactly
   * when the cut falls on a chunk boundary.
   */
  lemma {:induction false} TruncatedBody(key: Dek, base: seq<Octet>, plain: seq<Octet>, c: nat, cut: nat)
    requires cut <= |SealChunks(key, base, plain, c)|
    ensures cut == |SealChunks(key, base, plain, c)| || cut / CHUNK_BLOCK * CHUNK_SIZE <= |plain|
    ensures OpenChunks(key, base, SealChunks(key, base, plain, c)[..cut], c)
            == if cut == |SealChunks(key, base, plain, c)| then Opening(plain, true)
               else Opening(plain[..cut / CHUNK_BLOCK * CHUNK_SIZE], cut % CHUNK_BLOCK == 0)
    decreases |plain|
  {
    hide ChunkNonce, Seal, Open;
    if |plain| > 0 {
      var n := Smaller(CHUNK_SIZE, |plain|);
      var first, rest := Seal(key, ChunkNonce(base, c), [], plain[..n]), SealChunks(key, base, plain[n..], c + 1);
      var body := first + rest;
      if cut >= |first| {
        TruncatedBody(key, base, plain[n..], c + 1, cut - |first|);
        assert body[..cut] == first + rest[..cut - |first|];
        if n < CHUNK_SIZE { assert rest == []; }
        OpenFirst(key, base, plain[..n], rest[..cut - |first|], c);
        assert plain == plain[..n] + plain[n..];
        if cut < |body| {
          OneChunkMore(plain, cut);
        }
      } else if cut > 0 {
        assert body[..cut] == first[..cut];
        CutIsRejected(key, ChunkNonce(base, c), [], plain[..n], cut, key, ChunkNonce(base, c), []);
        RefusedFirst(key, base, first[..cut], c);
        assert cut / CHUNK_BLOCK == 0;
        assert plain[..0] == [];
      }
    }
  }

  lemma OneChunkMore(plain: seq<Octet>, cut: nat)
    requires cut >= CHUNK_BLOCK && (cut - CHUNK_BLOCK) / CHUNK_BLOCK * CHUNK_SIZE + CHUNK_SIZE <= |plain|
    ensures cut % CHUNK_BLOCK == (cut - CHUNK_BLOCK) % CHUNK_BLOCK
    ensures cut / CHUNK_BLOCK * CHUNK_SIZE == (cut - CHUNK_BLOCK) / CHUNK_BLOCK * CHUNK_SIZE + CHUNK_SIZE
    ensures plain[..CHUNK_SIZE] + plain[CHUNK_SIZE..][..(cut - CHUNK_BLOCK) / CHUNK_BLOCK * CHUNK_SIZE] == plain[..cut / CHUNK_BLOCK * CHUNK_SIZE]
  {
    var q := (cut - CHUNK_BLOCK) / CHUNK_BLOCK;
    assert cut / CHUNK_BLOCK == q + 1;
    var m := q * CHUNK_SIZE;
    assert plain[..CHUNK_SIZE] + plain[CHUNK_SIZE..][..m] == plain[..m + CHUNK_SIZE];
  }

  lemma RefusedFirst(key: Dek, base: seq<Octet>, body: Cells, c: nat)
    requires 0 < |body| <= CHUNK_BLOCK && Open(key, ChunkNonce(base, c), [], body).None?
    ensures OpenChunks(key, base, body, c) == Opening([], false)
  {
    assert body[..|body|] == body;
  }

  /** A sealed text of no octets behind the chunks of `plain`: the one addition that goes unnoticed. */
  predicate EmptyTail(key: Dek, base: seq<Octet>, plain: seq<Octet>, c: nat, body: Cells) {
    |plain| % CHUNK_SIZE == 0
    && body == SealChunks(key, base, plain, c) + Seal(key, ChunkNonce(base, c + |plain| / CHUNK_SIZE), [], [])
  }

  /**
   * A body decrypts completely to `plain` if and only if it is the sealed body of
   * `plain`, possibly followed by one sealed empty text with the next number.
   */
  lemma {:induction false} AcceptedIff(key: Dek, base: seq<Octet>, plain: seq<Octet>, c: nat, body: Cells)
    ensures OpenChunks(key, base, body, c) == Opening(plain, true) <==>
              body == SealChunks(key, base, plain, c) || EmptyTail(key, base, plain, c, body)
    decreases |body|
  {
    if OpenChunks(key, base, body, c) == Opening(plain, true) {
      AcceptedWasSealed(key, base, plain, c, body);
    }
    if body == SealChunks(key, base, plain, c) {
      TruncatedBody(key, base, plain, c, |body|);
      assert body[..|body|] == body;
    }
    if EmptyTail(key, base, plain, c, body) {
      EmptyTailOpens(key, base, plain, c);
    }
  }

  lemma NothingOpens(key: Dek, base: seq<Octet>, c: nat)
    ensures OpenChunks(key, base, [], c) == Opening([], true)
  {
  }

  lemma {:induction false} EmptyTailOpens(key: Dek, base: seq<Octet>, plain: seq<Octet>, c: nat)
    requires |plain| % CHUNK_SIZE == 0
    ensures OpenChunks(key, base, SealChunks(key, base, plain, c) + Seal(key, ChunkNonce(base, c + |plain| / CHUNK_SIZE), [], []), c)
            == Opening(plain, true)
    decreases |plain|
  {
    hide ChunkNonce, Seal, Open, OpenChunks;
    var tail := Seal(key, ChunkNonce(base, c + |plain| / CHUNK_SIZE), [], []);
    if |plain| == 0 {
      OpenFirst(key, base, [], [], c);
      NothingOpens(key, base, c + 1);
      assert SealChunks(key, base, plain, c) + tail == tail + [];
    } else {
      var n := CHUNK_SIZE;
      var first, rest := Seal(key, ChunkNonce(base, c), [], plain[..n]), SealChunks(key, base, plain[n..], c + 1);
      EmptyTailOpens(key, base, plain[n..], c + 1);
      assert c + 1 + (|plain| - n) / CHUNK_SIZE == c + |plain| / CHUNK_SIZE;
      OpenFirst(key, base, plain[..n], rest + tail, c);
      assert SealChunks(key, base, plain, c) + tail == first + (rest + tail);
      assert plain == plain[..n] + plain[n..];
    }
  }

  lemma {:induction false} AcceptedWasSealed(key: Dek, base: seq<Octet>, plain: seq<Octet>, c: nat, body: Cells)
    requires OpenChunks(key, base, body, c) == Opening(plain, true)
    ensures body == SealChunks(key, base, plain, c) || EmptyTail(key, base, plain, c, body)
    decreases |body|
  {
    hide ChunkNonce, Seal, Open;
    if |body| > 0 {
      var n := Smaller(CHUNK_BLOCK, |body|);
      var text := Open(key, ChunkNonce(base, c), [], body[..n]).value;
      OpenIff(key, ChunkNonce(base, c), [], body[..n], text);
      var o := OpenChunks(key, base, body[n..], c + 1);
      AcceptedWasSealed(key, base, o.plain, c + 1, body[n..]);
      assert body == body[..n] + body[n..];
      if |text| > 0 {
        AppendChunk(key, base, text, o.plain, c);
        if EmptyTail(key, base, o.plain, c + 1, body[n..]) {
          assert |plain| / CHUNK_SIZE == 1 + |o.plain| / CHUNK_SIZE;
        }
      } else {
        assert body[n..] == [] && o == Opening([], true);
        assert body == [] + Seal(key, ChunkNonce(base, c), [], []);
      }
    }
  }

  lemma AppendChunk(key: Dek, base: seq<Octet>, text: seq<Octet>, rest: seq<Octet>, c: nat)
    requires 0 < |text| <= CHUNK_SIZE && (rest == [] || |text| == CHUNK_SIZE)
    ensures SealChunks(key, base, text + rest, c)
            == Seal(key, ChunkNonce(base, c), [], text) + SealChunks(key, base, rest, c + 1)
  {
    hide ChunkNonce, Seal;
    var n := Smaller(CHUNK_SIZE, |text + rest|);
    assert (text + rest)[..n] == text && (text + rest)[n..] == rest;
  }

  /** A stretch of the header reads back in the clear. */
  lemma HeaderSlice(e: Envelope, body: Cells, lo: nat, hi: nat)
    requires lo <= hi <= |Header(e)|
    ensures var part := (Header(e) + body)[lo..hi]; Clear(part) && Lower(part) == HeaderOctets(e)[lo..hi]
  {
    hide HeaderOctets;
    var part := (Header(e) + body)[lo..hi];
    forall i | 0 <= i < |part| ensures part[i] == Plain(HeaderOctets(e)[lo + i]) {
      assert part[i] == Header(e)[lo + i];
    }
  }

  lemma HeaderFields(e: Envelope)
    ensures var octets, n := HeaderOctets(e), |e.wrapped|;
            && octets[..4] == MAGIC && octets[5] == e.alg && octets[6] == n / 256 % 256 && octets[7] == n % 256
            && octets[8..][..n] == e.wrapped && octets[8..][n..] == e.base
  {
    assert HeaderOctets(e)[8..] == e.wrapped + e.base;
  }

  lemma PrefixParses(e: Envelope, body: Cells)
    ensures ParsePrefix((Header(e) + body)[..8]) == Some((e.alg, (|e.wrapped| / 256 % 256) * 256 + |e.wrapped| % 256))
  {
    HeaderSlice(e, body, 0, 8);
    HeaderFields(e);
    hide Header, HeaderOctets;
    var prefix := (Header(e) + body)[0..8];
    assert prefix == (Header(e) + body)[..8];
    assert Lower(prefix)[..4] == HeaderOctets(e)[..4];
    assert forall i :: 0 <= i < 8 ==> prefix[i].octet == Lower(prefix)[i] == HeaderOctets(e)[i];
  }

  /** The 16-bit length field names the wrapped key exactly when it is shorter than 64 KiB. */
  lemma HeaderParsesIff(e: Envelope, body: Cells)
    requires |e.base| == BASE_NONCE_LEN
    ensures ParseHeader(Header(e) + body) == Some(Head(e.alg, e.wrapped, e.base, |Header(e)|)) <==> e.Fits()
    ensures (Header(e) + body)[|Header(e)|..] == body
  {
    PrefixParses(e, body);
    var n, cells := |e.wrapped|, Header(e) + body;
    LengthField(n);
    hide Header, HeaderOctets, ParsePrefix;
    if e.Fits() {
      HeaderSlice(e, body, 8, |Header(e)|);
      HeaderFields(e);
      assert HeaderOctets(e)[8..|Header(e)|] == HeaderOctets(e)[8..];
      assert ParseRest(e.alg, cells[8..8 + n + BASE_NONCE_LEN]) == Some(Head(e.alg, e.wrapped, e.base, |Header(e)|));
    }
  }

  lemma LengthField(n: nat)
    ensures (n / 256 % 256) * 256 + n % 256 == n <==> n < 0x1_0000
    ensures (n / 256 % 256) * 256 + n % 256 < 0x1_0000
  {
  }

  /**
   * Decrypting a container, whole or cut anywhere behind its header: never wrong bytes,
   * the plaintext if it is whole, an error unless the cut falls on a chunk boundary.
   */
  lemma DecryptContainer(unwrap: Unwrap, e: Envelope, plain: seq<Octet>, cut: nat)
    requires e.Fits() && unwrap(e.alg, e.wrapped) == Success(e.key)
    requires |Header(e)| <= cut <= |Container(e, plain)|
    ensures var r := Decrypted(unwrap, Container(e, plain)[..cut]);
            var inBody := cut - |Header(e)|;
            if cut == |Container(e, plain)| then r == Success(plain)
            else if inBody % CHUNK_BLOCK == 0 then
              inBody / CHUNK_BLOCK * CHUNK_SIZE <= |plain| && r == Success(plain[..inBody / CHUNK_BLOCK * CHUNK_SIZE])
            else r == Failure(Decrypt)
  {
    var body := SealChunks(e.key, e.base, plain, 0);
    var inBody := cut - |Header(e)|;
    assert Container(e, plain)[..cut] == Header(e) + body[..inBody];
    HeaderParsesIff(e, body[..inBody]);
    TruncatedBody(e.key, e.base, plain, 0, inBody);
  }

  /** A header as any version of the format would write it: the version octet is not looked at. */
  function AnyHeader(version: Octet, e: Envelope): Cells {
    Lift([0x4B, 0x50, 0x45, 0x01, version, e.alg, |e.wrapped| / 256 % 256, |e.wrapped| % 256] + e.wrapped + e.base)
  }

  predicate StartsWith(data: Cells, version: Octet, e: Envelope) {
    e.Fits() && AnyHeader(version, e) <= data
  }

  /** A header is found exactly where data starts with one. */
  lemma HeaderFoundIff(data: Cells)
    ensures ParseHeader(data).Some? <==> exists version, e :: StartsWith(data, version, e)
  {
    if ParseHeader(data).Some? {
      var version, e := HeaderThere(data);
      assert StartsWith(data, version, e);
    }
    if version, e :| StartsWith(data, version, e) {
      StartParses(data, version, e);
    }
  }

  lemma HeaderThere(data: Cells) returns (version: Octet, e: Envelope)
    requires ParseHeader(data).Some?
    ensures StartsWith(data, version, e)
  {
    var h := ParseHeader(data).value;
    var n := |h.wrapped|;
    version, e := data[4].octet, Envelope(h.alg, h.wrapped, [], h.base);
    var head, rest := data[..8], data[8..8 + n + BASE_NONCE_LEN];
    LengthOf(data[6].octet, data[7].octet);
    assert n == data[6].octet * 256 + data[7].octet;
    assert Lower(head)[0] == MAGIC[0] && Lower(head)[1] == MAGIC[1] && Lower(head)[2] == MAGIC[2] && Lower(head)[3] == MAGIC[3] by {
      assert forall i :: 0 <= i < 4 ==> Lower(head)[i] == Lower(head)[..4][i];
    }
    forall i | 0 <= i < |AnyHeader(version, e)| ensures AnyHeader(version, e)[i] == data[i] {
      if i < 8 {
        assert data[i] == head[i] && head[i] == Plain(Lower(head)[i]);
      } else {
        assert data[i] == rest[i - 8] && rest[i - 8] == Plain(Lower(rest)[i - 8]);
        assert h.wrapped + h.base == Lower(rest);
      }
    }
    assert AnyHeader(version, e) == data[..|AnyHeader(version, e)|];
  }

  lemma LengthOf(high: Octet, low: Octet)
    ensures var n := high * 256 + low; n / 256 % 256 == high && n % 256 == low && n < 0x1_0000
  {
  }

  /** A stretch of octets stored in the clear reads back. */
  lemma ClearSlice(data: Cells, octets: seq<Octet>, lo: nat, hi: nat)
    requires Lift(octets) <= data && lo <= hi <= |octets|
    ensures Clear(data[lo..hi]) && Lower(data[lo..hi]) == octets[lo..hi]
  {
    var all: Cells := Lift(octets);
    forall i | lo <= i < hi ensures data[lo..hi][i - lo] == Plain(octets[i]) {
      assert data[i] == all[i];
    }
  }

  lemma PrefixOf(head: Cells, alg: Octet, n: nat)
    requires |head| == 8 && Clear(head) && n < 0x1_0000
    requires Lower(head)[..4] == MAGIC && Lower(head)[5] == alg && Lower(head)[6] == n / 256 % 256 && Lower(head)[7] == n % 256
    ensures ParsePrefix(head) == Some((alg, n))
  {
    LengthField(n);
  }

  lemma AnyFields(version: Octet, e: Envelope)
    ensures var n := |e.wrapped|;
            var octets := [0x4B, 0x50, 0x45, 0x01, version, e.alg, n / 256 % 256, n % 256] + e.wrapped + e.base;
            && octets[0..8][..4] == MAGIC && octets[0..8][5] == e.alg && octets[0..8][6] == n / 256 % 256 && octets[0..8][7] == n % 256
            && octets[8..8 + n + |e.base|] == e.wrapped + e.base
  {
  }

  /** Where data starts with a header, that is the one parsed, and the rest follows it. */
  lemma StartParses(data: Cells, version: Octet, e: Envelope)
    requires StartsWith(data, version, e)
    ensures ParseHeader(data) == Some(Head(e.alg, e.wrapped, e.base, |AnyHeader(version, e)|))
  {
    var n := |e.wrapped|;
    var octets := [0x4B, 0x50, 0x45, 0x01, version, e.alg, n / 256 % 256, n % 256] + e.wrapped + e.base;
    LengthField(n);
    AnyFields(version, e);
    ClearSlice(data, octets, 0, 8);
    ClearSlice(data, octets, 8, 8 + n + BASE_NONCE_LEN);
    var head, rest := data[0..8], data[8..8 + n + BASE_NONCE_LEN];
    assert head == data[..8];
    hide Lower, Clear, Lift;
    assert ParsePrefix(head) == Some((e.alg, n)) by { PrefixOf(head, e.alg, n); }
    assert ParseRest(e.alg, rest) == Some(Head(e.alg, e.wrapped, e.base, 8 + n + BASE_NONCE_LEN));
  }

  /**
   * What decrypting a buffer returns, for every buffer. Data that does not start with a
   * header is a format error; a key the provider refuses is the provider's error,
   * whatever follows; otherwise the plaintext if the rest is its sealed body, or that and
   * one sealed empty text, and a decryption error if it is nobody's.
   */
  lemma DecryptedExactly(unwrap: Unwrap, data: Cells)
    ensures (forall version, e :: !StartsWith(data, version, e)) ==> Decrypted(unwrap, data) == Failure(Format)
    ensures forall version, e :: StartsWith(data, version, e) ==>
              match unwrap(e.alg, e.wrapped)
              case Failure(error) => Decrypted(unwrap, data) == Failure(error)
              case Success(key) =>
                var body := data[|AnyHeader(version, e)|..];
                && (forall plain :: Decrypted(unwrap, data) == Success(plain) <==>
                      body == SealChunks(key, e.base, plain, 0) || EmptyTail(key, e.base, plain, 0, body))
                && (Decrypted(unwrap, data).Failure? ==> Decrypted(unwrap, data) == Failure(Decrypt))
  {
    HeaderFoundIff(data);
    forall version, e | StartsWith(data, version, e)
      ensures match unwrap(e.alg, e.wrapped)
              case Failure(error) => Decrypted(unwrap, data) == Failure(error)
              case Success(key) =>
                var body := data[|AnyHeader(version, e)|..];
                && (forall plain :: Decrypted(unwrap, data) == Success(plain) <==>
                      body == SealChunks(key, e.base, plain, 0) || EmptyTail(key, e.base, plain, 0, body))
                && (Decrypted(unwrap, data).Failure? ==> Decrypted(unwrap, data) == Failure(Decrypt))
    {
      DecryptedBehind(unwrap, data, version, e);
    }
  }

  lemma DecryptedBehind(unwrap: Unwrap, data: Cells, version: Octet, e: Envelope)
    requires StartsWith(data, version, e)
    ensures match unwrap(e.alg, e.wrapped)
            case Failure(error) => Decrypted(unwrap, data) == Failure(error)
            case Success(key) =>
              var body := data[|AnyHeader(version, e)|..];
              && (forall plain :: Decrypted(unwrap, data) == Success(plain) <==>
                    body == SealChunks(key, e.base, plain, 0) || EmptyTail(key, e.base, plain, 0, body))
              && (Decrypted(unwrap, data).Failure? ==> Decrypted(unwrap, data) == Failure(Decrypt))
  {
    hide ParseHeader, SealChunks, OpenChunks, EmptyTail;
    StartParses(data, version, e);
    if unwrap(e.alg, e.wrapped).Success? {
      var key, body := unwrap(e.alg, e.wrapped).value, data[|AnyHeader(version, e)|..];
      forall plain ensures OpenChunks(key, e.base, body, 0) == Opening(plain, true) <==>
                             body == SealChunks(key, e.base, plain, 0) || EmptyTail(key, e.base, plain, 0, body) {
        AcceptedIff(key, e.base, plain, 0, body);
      }
    }
  }

  /**
   * A plaintext encrypted as a stream, stored, and decrypted as a stream, with every
   * reader fragmenting as it likes, comes back whole; if its source failed, without
   * any error, as its whole chunks.
   */
  method StreamThere(unwrap: Unwrap, e: Envelope, src: Streams.Reader<Octet>) returns (out: seq<Octet>)
    requires e.Fits() && unwrap(e.alg, e.wrapped) == Success(e.key)
    modifies src`rest
    ensures !src.fails ==> out == old(src.rest)
    ensures src.fails ==> out == old(src.rest)[..WholeChunks(|old(src.rest)|)]
  {
    ghost var plain := if src.fails then src.rest[..WholeChunks(|src.rest|)] else src.rest;
    hide Header, SealChunks, OpenChunks, ParseHeader, WholeChunks;
    var container := EncryptingReader(e, src);
    ghost var body := SealChunks(e.key, e.base, plain, 0);
    HeaderParsesIff(e, body);
    var stored := new Streams.Reader(container, false);
    var head := OpenStreamHeader(unwrap, stored);
    assert stored.rest == body == body[..|body|];
    TruncatedBody(e.key, e.base, plain, 0, |body|);
    out := StreamChunks(stored, head.value.0, head.value.1);
  }

  // ---------------------------------------------------------------------------
  // Nonces
  // ---------------------------------------------------------------------------

  /** Two chunks of an object get the same nonce exactly when their numbers agree modulo 2^32. */
  lemma NonceRepeatsIff(base: seq<Octet>, i: nat, j: nat)
    ensures ChunkNonce(base, i) == ChunkNonce(base, j) <==> i % WORD == j % WORD
  {
    FourOctets(i, j);
    assert ChunkNonce(base, i)[|base|..] == Be4(i) && ChunkNonce(base, j)[|base|..] == Be4(j);
  }

  /** The nonces of an object are all distinct if and only if it has at most 2^32 chunks. */
  lemma NoncesDistinctIff(base: seq<Octet>, chunks: nat)
    ensures (forall i: nat, j: nat :: i < j < chunks ==> ChunkNonce(base, i) != ChunkNonce(base, j)) <==> chunks <= WORD
  {
    if chunks <= WORD {
      forall i: nat, j: nat | i < j < chunks ensures ChunkNonce(base, i) != ChunkNonce(base, j) {
        NonceRepeatsIff(base, i, j);
      }
    } else {
      NonceRepeatsIff(base, 0, WORD);
      assert ChunkNonce(base, 0) == ChunkNonce(base, WORD);
    }
  }
}
