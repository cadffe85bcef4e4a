/**
 * Range reads: the chunk-seeking reader of the file store (src/storage/fs.rs) and the
 * skip-then-take reader of the erasure store (src/erasure/store.rs).
 */
module Ranges {
  import opened Wrappers
  import opened Octets
  import opened Aead
  import opened Kpe1
  import Streams

  /** What a range asks for: the octets from `start` to `end`, both included, as far as there are any. */
  function Slice(plain: seq<Octet>, start: nat, end: Option<nat>): seq<Octet> {
    if |plain| == 0 then []
    else
      var last := Smaller(end.GetOr(|plain| - 1), |plain| - 1);
      if last < start then [] else plain[start..last + 1]
  }

  datatype Window = Window(start: nat, last: nat, len: nat)

  /** The arithmetic of both readers: clamp the start to the size and the end to the last octet. */
  function WindowOf(size: nat, start: nat, end: Option<nat>): Window {
    var top := if size == 0 then 0 else size - 1;
    var from := Smaller(start, size);
    var last := if end.Some? then Smaller(end.value, top) else top;
    Window(from, last, if size == 0 || last < from then 0 else last - from + 1)
  }

  /** The window holds exactly the octets asked for, for every size, start and end. */
  lemma WindowIsSlice(plain: seq<Octet>, start: nat, end: Option<nat>)
    ensures var w := WindowOf(|plain|, start, end);
            w.start + w.len <= |plain| && plain[w.start..w.start + w.len] == Slice(plain, start, end)
  {
  }

  /** The slice has exactly the octets of the object from position `start` to position `end`, in order. */
  lemma SliceOctets(plain: seq<Octet>, start: nat, end: Option<nat>)
    ensures var slice := Slice(plain, start, end);
            && (forall p :: start <= p < |plain| && (end.Some? ==> p <= end.value) ==> p - start < |slice| && slice[p - start] == plain[p])
            && (forall i :: 0 <= i < |slice| ==> start + i < |plain| && slice[i] == plain[start + i] && (end.Some? ==> start + i <= end.value))
  {
  }

  lemma Shift<T>(first: seq<T>, rest: seq<T>, lo: nat, hi: nat)
    requires lo <= hi <= |rest|
    ensures (first + rest)[|first| + lo..|first| + hi] == rest[lo..hi]
  {
  }

  lemma TailSlice<T>(s: seq<T>, n: nat, lo: nat, hi: nat)
    requires n <= |s| && lo <= hi <= |s| - n
    ensures s[n..][lo..hi] == s[n + lo..n + hi]
  {
  }

  lemma FirstChunk(key: Dek, base: seq<Octet>, plain: seq<Octet>, c: nat)
    requires |plain| > 0
    ensures var n := Smaller(CHUNK_SIZE, |plain|);
            && SealChunks(key, base, plain, c)
               == Seal(key, ChunkNonce(base, c), [], plain[..n]) + SealChunks(key, base, plain[n..], c + 1)
            && (n < CHUNK_SIZE ==> SealChunks(key, base, plain[n..], c + 1) == [])
  {
    hide Seal, ChunkNonce;
  }

  /** Block `i` of a sealed body is chunk `i` sealed under its number. */
  lemma {:induction false} BlockIsChunk(key: Dek, base: seq<Octet>, plain: seq<Octet>, c: nat, i: nat)
    requires i * CHUNK_SIZE < |plain|
    ensures var body := SealChunks(key, base, plain, c);
            && i * CHUNK_BLOCK < |body|
            && body[i * CHUNK_BLOCK..Smaller(i * CHUNK_BLOCK + CHUNK_BLOCK, |body|)]
               == Seal(key, ChunkNonce(base, c + i), [], plain[i * CHUNK_SIZE..Smaller(i * CHUNK_SIZE + CHUNK_SIZE, |plain|)])
    decreases i
  {
    hide Seal, ChunkNonce, SealChunks;
    var n := Smaller(CHUNK_SIZE, |plain|);
    FirstChunk(key, base, plain, c);
    var first, rest := Seal(key, ChunkNonce(base, c), [], plain[..n]), SealChunks(key, base, plain[n..], c + 1);
    if i == 0 {
      assert (first + rest)[..|first|] == first;
    } else {
      var p, q := (i - 1) * CHUNK_BLOCK, (i - 1) * CHUNK_SIZE;
      assert i * CHUNK_BLOCK == p + CHUNK_BLOCK && i * CHUNK_SIZE == q + CHUNK_SIZE;
      BlockIsChunk(key, base, plain[n..], c + 1, i - 1);
      Shift(first, rest, p, Smaller(p + CHUNK_BLOCK, |rest|));
      TailSlice(plain, n, q, Smaller(q + CHUNK_SIZE, |plain| - n));
    }
  }

  /** The file really is the container of `plain`, and its key can be had. */
  ghost predicate Stored(unwrap: Unwrap, e: Envelope, plain: seq<Octet>, file: Cells) {
    e.Fits() && unwrap(e.alg, e.wrapped) == Success(e.key) && file == Container(e, plain)
  }

  lemma BlockInFile(header: Cells, body: Cells, p: nat)
    requires p < |body|
    ensures var file, off := header + body, |header| + p;
            off < |file| && file[off..off + Smaller(|file| - off, CHUNK_BLOCK)] == body[p..Smaller(p + CHUNK_BLOCK, |body|)]
  {
    Shift(header, body, p, Smaller(p + CHUNK_BLOCK, |body|));
  }

  /** The block the reader seeks to decrypts to the chunk it wants. */
  lemma SeekChunk(unwrap: Unwrap, e: Envelope, plain: seq<Octet>, file: Cells, i: nat)
    requires Stored(unwrap, e, plain, file) && i * CHUNK_SIZE < |plain|
    ensures var off := |Header(e)| + i * CHUNK_BLOCK;
            && off < |file|
            && Open(e.key, ChunkNonce(e.base, Wrapped(i)), [], file[off..off + Smaller(|file| - off, CHUNK_BLOCK)])
               == Some(plain[i * CHUNK_SIZE..Smaller(i * CHUNK_SIZE + CHUNK_SIZE, |plain|)])
  {
    hide Seal, Header, SealChunks, ChunkNonce, Open, Smaller;
    BlockIsChunk(e.key, e.base, plain, 0, i);
    NonceWraps(e.base, i);
    var text := plain[i * CHUNK_SIZE..Smaller(i * CHUNK_SIZE + CHUNK_SIZE, |plain|)];
    BlockInFile(Header(e), SealChunks(e.key, e.base, plain, 0), i * CHUNK_BLOCK);
    OpenIff(e.key, ChunkNonce(e.base, i), [], Seal(e.key, ChunkNonce(e.base, i), [], text), text);
  }

  /** The part of the plaintext decrypted once chunks `first` to `i` are done. */
  function Decoded(plain: seq<Octet>, first: nat, i: nat): seq<Octet> {
    if first * CHUNK_SIZE <= Smaller(i * CHUNK_SIZE, |plain|) then plain[first * CHUNK_SIZE..Smaller(i * CHUNK_SIZE, |plain|)] else []
  }

  lemma DecodedStep(plain: seq<Octet>, first: nat, i: nat)
    requires first <= i && i * CHUNK_SIZE < |plain|
    ensures Decoded(plain, first, i + 1) == Decoded(plain, first, i) + plain[i * CHUNK_SIZE..Smaller(i * CHUNK_SIZE + CHUNK_SIZE, |plain|)]
  {
    var a, b, c := first * CHUNK_SIZE, i * CHUNK_SIZE, Smaller(i * CHUNK_SIZE + CHUNK_SIZE, |plain|);
    assert (i + 1) * CHUNK_SIZE == b + CHUNK_SIZE;
    assert a <= b <= c;
    assert plain[a..b] + plain[b..c] == plain[a..c];
  }

  /** Cutting the window out of the decrypted chunks. */
  function CutOut(got: seq<Octet>, localStart: nat, len: nat): seq<Octet> {
    var localEnd := Smaller(localStart + len, |got|);
    if localStart <= localEnd then got[localStart..localEnd] else []
  }

  lemma Inner<T>(s: seq<T>, a: nat, b: nat, lo: nat, hi: nat)
    requires a <= lo <= hi <= b <= |s|
    ensures s[a..b][lo - a..hi - a] == s[lo..hi]
  {
    var t, u := s[a..b], s[a..b][lo - a..hi - a];
    assert |u| == hi - lo;
    forall k | 0 <= k < hi - lo ensures u[k] == s[lo..hi][k] {
      assert u[k] == t[lo - a + k] == s[lo + k];
    }
  }

  lemma CutOutIsWindow(plain: seq<Octet>, w: Window, start: nat, end: Option<nat>)
    requires w == WindowOf(|plain|, start, end)
    ensures w.start + w.len <= |plain|
    ensures var first, stop := w.start / CHUNK_SIZE, w.last / CHUNK_SIZE + 1;
            CutOut(Decoded(plain, first, stop), w.start - first * CHUNK_SIZE, w.len) == plain[w.start..w.start + w.len]
  {
    var first, stop := w.start / CHUNK_SIZE, w.last / CHUNK_SIZE + 1;
    WindowShape(|plain|, start, end);
    WindowFits(plain, start, end);
    var lo, hi := first * CHUNK_SIZE, stop * CHUNK_SIZE;
    assert lo <= w.start && w.last < hi;
    hide WindowOf;
    CutOutOf(plain, Decoded(plain, first, stop), lo, Smaller(hi, |plain|), w.start, w.len);
  }

  lemma WindowFits(plain: seq<Octet>, start: nat, end: Option<nat>)
    ensures var w := WindowOf(|plain|, start, end);
            w.start + w.len <= |plain| && (w.len > 0 ==> w.start + w.len == w.last + 1)
  {
  }

  lemma CutOutOf(plain: seq<Octet>, got: seq<Octet>, lo: nat, hi: nat, start: nat, len: nat)
    requires lo <= start && start + len <= |plain| && hi <= |plain|
    requires len > 0 ==> start + len <= hi && got == plain[lo..hi]
    ensures CutOut(got, start - lo, len) == plain[start..start + len]
  {
    if len > 0 {
      Inner(plain, lo, hi, start, start + len);
    }
  }

  /**
   * Read the header, then only the chunks that cover the range. On the container of
   * any plaintext, for every start and end, the answer is exactly the slice and its length.
   */
  method SealedRange(unwrap: Unwrap, file: Cells, size: nat, start: nat, end: Option<nat>, ghost e: Envelope, ghost plain: seq<Octet>)
    returns (len: nat, r: Result<seq<Octet>, CryptoError>)
    ensures len == WindowOf(size, start, end).len
    ensures r.Success? ==> |r.value| <= len
    ensures Stored(unwrap, e, plain, file) && size == |plain| ==> len == |Slice(plain, start, end)| && r == Success(Slice(plain, start, end))
  {
    hide Seal, Header, SealChunks, ChunkNonce, Open, ParseHeader, Slice, WindowOf, Decoded;
    ghost var good := Stored(unwrap, e, plain, file) && size == |plain|;
    var w := WindowOf(size, start, end);
    WindowIsSlice(plain, start, end);
    len := w.len;
    if good { HeaderParsesIff(e, SealChunks(e.key, e.base, plain, 0)); }
    var h := ParseHeader(file);
    if h.None? { return len, Failure(Format); }
    var dek := unwrap(h.value.alg, h.value.wrapped);
    if dek.Failure? { return len, Failure(dek.error); }
    var first, last := w.start / CHUNK_SIZE, w.last / CHUNK_SIZE;
    var got: seq<Octet> := [];
    var ci := first;
    WindowShape(size, start, end);
    if good { DecodedStart(plain, first, last); }
    while ci <= last
      invariant first <= ci && (ci <= last + 1 || ci == first)
      invariant good ==> got == Decoded(plain, first, ci)
      decreases last + 1 - ci
    {
      var off := h.value.len + ci * CHUNK_BLOCK;
      if good && size > 0 {
        assert ci * CHUNK_SIZE <= last * CHUNK_SIZE <= w.last < size;
        SeekChunk(unwrap, e, plain, file, ci);
        DecodedStep(plain, first, ci);
      }
      if off >= |file| {
        if good { DecodedStart(plain, first, last); }
        break;
      }
      if good && size == 0 { NoBody(unwrap, e, plain, file); }
      var block := file[off..off + Smaller(|file| - off, CHUNK_BLOCK)];
      var text := Open(dek.value, ChunkNonce(h.value.base, Wrapped(ci)), [], block);
      if text.None? { return len, Failure(Decrypt); }
      got := got + text.value;
      ci := ci + 1;
    }
    if good { CutOutIsWindow(plain, w, start, end); }
    r := Success(CutOut(got, w.start - first * CHUNK_SIZE, w.len));
  }

  lemma WindowShape(size: nat, start: nat, end: Option<nat>)
    ensures var w := WindowOf(size, start, end);
            w.start <= size && (size > 0 ==> w.last < size) && (size == 0 ==> w == Window(0, 0, 0))
  {
  }

  lemma DecodedStart(plain: seq<Octet>, first: nat, last: nat)
    ensures Decoded(plain, first, first) == []
    ensures first > last ==> Decoded(plain, first, last + 1) == []
    ensures |plain| == 0 ==> forall i :: Decoded(plain, first, i) == []
  {
  }

  lemma NoBody(unwrap: Unwrap, e: Envelope, plain: seq<Octet>, file: Cells)
    requires Stored(unwrap, e, plain, file) && |plain| == 0
    ensures |file| == |Header(e)|
  {
  }

  /** An object kept in the clear: seek, then take. */
  method PlainRange(file: seq<Octet>, start: nat, end: Option<nat>) returns (len: nat, r: seq<Octet>)
    ensures len == |Slice(file, start, end)| && r == Slice(file, start, end)
  {
    var w := WindowOf(|file|, start, end);
    WindowIsSlice(file, start, end);
    var rest := file[w.start..];
    len, r := w.len, rest[..Smaller(w.len, |rest|)];
    assert r == file[w.start..w.start + w.len];
  }

  /**
   * Skip to the start of a decrypted stream and read the whole length, however the
   * stream is fragmented. When the stream carries the whole object the answer is the
   * slice; when it ends early or fails before the window is covered, an error.
   */
  method SkipThenTake(body: Streams.Reader<Octet>, size: nat, start: nat, end: Option<nat>)
    returns (len: nat, r: Result<seq<Octet>, ()>)
    modifies body`rest
    ensures len == WindowOf(size, start, end).len
    ensures var w := WindowOf(size, start, end);
            r.Failure? <==> |old(body.rest)| < w.start + w.len && (w.len == 0 ==> body.fails)
    ensures r.Success? && |old(body.rest)| == size ==> r.value == Slice(old(body.rest), start, end) && len == |r.value|
  {
    ghost var all := body.rest;
    var w := WindowOf(size, start, end);
    WindowIsSlice(all, start, end);
    len := w.len;
    var skipped := body.Skip(w.start);
    if skipped.Failure? { return len, Failure(()); }
    var slice := body.ReadFull(len);
    if slice.Failure? || |slice.value| < len { return len, Failure(()); }
    if |all| == size {
      TailSlice(all, w.start, 0, w.len);
      assert slice.value == all[w.start..][0..w.len];
    }
    r := Success(slice.value);
  }
}
