/**
 * Encrypted admin payloads (src/madmin.rs): salt, scheme id, nonce prefix and a stream
 * of sealed 16 KiB packages whose last one is marked.
 */
module Sio {
  import opened Wrappers
  import opened Octets
  import opened Aead

  const SALT_LEN: nat := 32
  const PREFIX_LEN: nat := 8
  const HEADER_LEN: nat := 41
  const BUF_SIZE: nat := 16384
  const MAX_PACKAGE: nat := 16400
  const NORMAL: Octet := 0x00
  const FINAL: Octet := 0x80

  /** The id fixes both the derivation and the cipher: Argon2id with AES-GCM or ChaCha20, PBKDF2 with AES-GCM. */
  datatype Key = Derived(id: Octet, password: string, salt: seq<Octet>)
  type Cells = seq<Cell<Key>>

  datatype MadminError = Format | UnsupportedCipher(id: Octet) | Decrypt

  function DeriveKey(id: Octet, password: string, salt: seq<Octet>): Result<Key, MadminError> {
    if id <= 2 then Success(Derived(id, password, salt)) else Failure(UnsupportedCipher(id))
  }

  function PackageNonce(prefix: seq<Octet>, sequence: nat): seq<Octet> {
    prefix + Le4(sequence)
  }

  /** The tag of an empty text under sequence number 0. */
  function ReferenceTag(key: Key, prefix: seq<Octet>): Cells {
    Seal(key, PackageNonce(prefix, 0), [], [])
  }

  function PackageAad(flag: Octet, key: Key, prefix: seq<Octet>): Cells {
    [Plain(flag)] + ReferenceTag(key, prefix)
  }

  function SealPackage(key: Key, prefix: seq<Octet>, sequence: nat, flag: Octet, text: seq<Octet>): (r: Cells)
    ensures |r| == |text| + TAG_LEN
  {
    Seal(key, PackageNonce(prefix, sequence), PackageAad(flag, key, prefix), text)
  }

  function OpenPackage(key: Key, prefix: seq<Octet>, sequence: nat, flag: Octet, cells: Cells): Option<seq<Octet>> {
    Open(key, PackageNonce(prefix, sequence), PackageAad(flag, key, prefix), cells)
  }

  /** The packages of a payload from number `sequence` on; an empty payload is one empty package. */
  function SealPackages(key: Key, prefix: seq<Octet>, data: seq<Octet>, sequence: nat): Cells
    decreases |data|
  {
    if |data| <= BUF_SIZE then SealPackage(key, prefix, sequence, FINAL, data)
    else SealPackage(key, prefix, sequence, NORMAL, data[..BUF_SIZE]) + SealPackages(key, prefix, data[BUF_SIZE..], sequence + 1)
  }

  function Blob(password: string, id: Octet, salt: seq<Octet>, prefix: seq<Octet>, data: seq<Octet>): Cells {
    Lift(salt + [id] + prefix) + SealPackages(Derived(id, password, salt), prefix, data, 1)
  }

  function OpenPackages(key: Key, prefix: seq<Octet>, rest: Cells, sequence: nat): Result<seq<Octet>, MadminError>
    decreases |rest|
  {
    if |rest| <= MAX_PACKAGE then
      if |rest| < TAG_LEN then Failure(Format)
      else match OpenPackage(key, prefix, sequence, FINAL, rest)
        case None => Failure(Decrypt)
        case Some(text) => Success(text)
    else match OpenPackage(key, prefix, sequence, NORMAL, rest[..MAX_PACKAGE])
      case None => Failure(Decrypt)
      case Some(text) =>
        match OpenPackages(key, prefix, rest[MAX_PACKAGE..], sequence + 1)
        case Failure(e) => Failure(e)
        case Success(more) => Success(text + more)
  }

  function Decrypted(password: string, blob: Cells): Result<seq<Octet>, MadminError> {
    if |blob| < HEADER_LEN || !Clear(blob[..HEADER_LEN]) then Failure(Format)
    else
      var head := Lower(blob[..HEADER_LEN]);
      match DeriveKey(head[SALT_LEN], password, head[..SALT_LEN])
      case Failure(e) => Failure(e)
      case Success(key) => OpenPackages(key, head[SALT_LEN + 1..], blob[HEADER_LEN..], 1)
  }

  lemma SequenceWraps(key: Key, prefix: seq<Octet>, sequence: nat, flag: Octet, text: seq<Octet>, cells: Cells)
    ensures SealPackage(key, prefix, Wrapped(sequence), flag, text) == SealPackage(key, prefix, sequence, flag, text)
    ensures OpenPackage(key, prefix, Wrapped(sequence), flag, cells) == OpenPackage(key, prefix, sequence, flag, cells)
  {
    WrappedCounter(sequence);
  }

  lemma SealedStep(key: Key, prefix: seq<Octet>, data: seq<Octet>, at: nat, sequence: nat)
    requires at <= |data|
    ensures SealPackages(key, prefix, data[at..], sequence)
            == if |data| - at <= BUF_SIZE then SealPackage(key, prefix, sequence, FINAL, data[at..])
               else SealPackage(key, prefix, sequence, NORMAL, data[at..at + BUF_SIZE]) + SealPackages(key, prefix, data[at + BUF_SIZE..], sequence + 1)
  {
    hide SealPackage;
    if |data| - at > BUF_SIZE {
      assert data[at..][..BUF_SIZE] == data[at..at + BUF_SIZE] && data[at..][BUF_SIZE..] == data[at + BUF_SIZE..];
    }
  }

  /** Seal a payload package by package, marking the one with none behind it. */
  method EncryptData(password: string, salt: seq<Octet>, prefix: seq<Octet>, data: seq<Octet>) returns (out: Cells)
    ensures out == Blob(password, 0, salt, prefix, data)
  {
    hide SealPackage, SealPackages, Wrapped;
    WrappedStart();
    var key := Derived(0, password, salt);
    var header: Cells := Lift(salt + [0] + prefix);
    out := header;
    assert data[0..] == data;
    SealedStep(key, prefix, data, 0, 1);
    if |data| == 0 {
      return out + SealPackage(key, prefix, 1, FINAL, []);
    }
    var at: nat, sequence: nat := 0, 1;
    ghost var i: nat := 1;
    ghost var whole := out + SealPackages(key, prefix, data, 1);
    while at < |data|
      invariant at <= |data| && sequence == Wrapped(i)
      invariant if at < |data| then out + SealPackages(key, prefix, data[at..], i) == whole else out == whole
      decreases |data| - at
    {
      var n := if |data| - at < BUF_SIZE then |data| - at else BUF_SIZE;
      var isFinal := at + n == |data|;
      var flag := if isFinal then FINAL else NORMAL;
      SealedStep(key, prefix, data, at, i);
      SequenceWraps(key, prefix, i, flag, data[at..at + n], []);
      WrappedNext(i);
      if isFinal { assert data[at..at + n] == data[at..]; }
      out := out + SealPackage(key, prefix, sequence, flag, data[at..at + n]);
      at, sequence, i := at + n, Wrapped(sequence + 1), i + 1;
    }
  }

  /** Open a blob package by package, taking the last one as marked. */
  method DecryptData(password: string, blob: Cells) returns (r: Result<seq<Octet>, MadminError>)
    ensures r == Decrypted(password, blob)
  {
    hide OpenPackage, Wrapped;
    WrappedStart();
    if |blob| < HEADER_LEN || !Clear(blob[..HEADER_LEN]) { return Failure(Format); }
    var head := Lower(blob[..HEADER_LEN]);
    var prefix := head[SALT_LEN + 1..];
    var derived := DeriveKey(head[SALT_LEN], password, head[..SALT_LEN]);
    if derived.Failure? { return Failure(derived.error); }
    var key, rest := derived.value, blob[HEADER_LEN..];
    ghost var whole := OpenPackages(key, prefix, rest, 1);
    var out: seq<Octet>, sequence: nat := [], 1;
    ghost var i: nat := 1;
    if whole.Success? { assert [] + whole.value == whole.value; }
    while true
      invariant sequence == Wrapped(i)
      invariant match OpenPackages(key, prefix, rest, i)
                case Failure(e) => whole == Failure(e)
                case Success(more) => whole == Success(out + more)
      decreases |rest|
    {
      var isFinal := |rest| <= MAX_PACKAGE;
      var take := if isFinal then |rest| else MAX_PACKAGE;
      if take < TAG_LEN { return Failure(Format); }
      var flag := if isFinal then FINAL else NORMAL;
      assert isFinal ==> rest[..take] == rest;
      SequenceWraps(key, prefix, i, flag, [], rest[..take]);
      var text := OpenPackage(key, prefix, sequence, flag, rest[..take]);
      if text.None? { return Failure(Decrypt); }
      WrappedNext(i);
      ghost var behind := if isFinal then Success([]) else OpenPackages(key, prefix, rest[take..], i + 1);
      if behind.Success? { assert out + (text.value + behind.value) == (out + text.value) + behind.value; }
      out, rest, sequence, i := out + text.value, rest[take..], Wrapped(sequence + 1), i + 1;
      if isFinal { return Success(out); }
    }
  }

  // ---------------------------------------------------------------------------
  // What opens
  // ---------------------------------------------------------------------------

  lemma PackageOpensIff(key: Key, prefix: seq<Octet>, sequence: nat, flag: Octet, cells: Cells, text: seq<Octet>)
    ensures OpenPackage(key, prefix, sequence, flag, cells) == Some(text) <==> cells == SealPackage(key, prefix, sequence, flag, text)
  {
    OpenIff(key, PackageNonce(prefix, sequence), PackageAad(flag, key, prefix), cells, text);
  }

  /** A package does not open under the other mark, and no part of it opens under any. */
  lemma PackageRefused(key: Key, prefix: seq<Octet>, sequence: nat, flag: Octet, text: seq<Octet>, cut: nat, mark: Octet)
    requires cut <= |text| + TAG_LEN && (cut < |text| + TAG_LEN || mark != flag)
    ensures OpenPackage(key, prefix, sequence, mark, SealPackage(key, prefix, sequence, flag, text)[..cut]).None?
  {
    var cells := SealPackage(key, prefix, sequence, flag, text);
    var nonce := PackageNonce(prefix, sequence);
    if cut < |cells| {
      assert cells == Seal(key, nonce, PackageAad(flag, key, prefix), text);
      CutIsRejected(key, nonce, PackageAad(flag, key, prefix), text, cut, key, nonce, PackageAad(mark, key, prefix));
    } else {
      assert cells[..cut] == cells;
      assert PackageAad(flag, key, prefix)[0] == Plain(flag) && PackageAad(mark, key, prefix)[0] == Plain(mark);
      forall t ensures OpenPackage(key, prefix, sequence, mark, cells) != Some(t) {
        PackageOpensIff(key, prefix, sequence, mark, cells, t);
        LastTag(key, prefix, sequence, flag, text);
        LastTag(key, prefix, sequence, mark, t);
      }
    }
  }

  lemma LastTag(key: Key, prefix: seq<Octet>, sequence: nat, flag: Octet, text: seq<Octet>)
    ensures var cells := SealPackage(key, prefix, sequence, flag, text);
            cells[|cells| - 1] == Tag(TAG_LEN - 1, key, PackageNonce(prefix, sequence), PackageAad(flag, key, prefix), text)
  {
  }

  /** Opening what was sealed gives the payload, at every length. */
  lemma {:induction false} SealedOpens(key: Key, prefix: seq<Octet>, data: seq<Octet>, sequence: nat)
    ensures OpenPackages(key, prefix, SealPackages(key, prefix, data, sequence), sequence) == Success(data)
    decreases |data|
  {
    hide OpenPackage, SealPackage;
    if |data| <= BUF_SIZE {
      PackageOpensIff(key, prefix, sequence, FINAL, SealPackages(key, prefix, data, sequence), data);
    } else {
      SealedOpens(key, prefix, data[BUF_SIZE..], sequence + 1);
      FirstPackage(key, prefix, data, sequence);
      assert data == data[..BUF_SIZE] + data[BUF_SIZE..];
    }
  }

  lemma FirstPackage(key: Key, prefix: seq<Octet>, data: seq<Octet>, sequence: nat)
    requires |data| > BUF_SIZE
    ensures var stream := SealPackages(key, prefix, data, sequence);
            && |stream| > MAX_PACKAGE
            && OpenPackage(key, prefix, sequence, NORMAL, stream[..MAX_PACKAGE]) == Some(data[..BUF_SIZE])
            && stream[MAX_PACKAGE..] == SealPackages(key, prefix, data[BUF_SIZE..], sequence + 1)
  {
    hide OpenPackage, SealPackage;
    var first, rest := SealPackage(key, prefix, sequence, NORMAL, data[..BUF_SIZE]), SealPackages(key, prefix, data[BUF_SIZE..], sequence + 1);
    assert (first + rest)[..MAX_PACKAGE] == first && (first + rest)[MAX_PACKAGE..] == rest;
    PackageOpensIff(key, prefix, sequence, NORMAL, first, data[..BUF_SIZE]);
  }

  /** No proper prefix of a sealed stream opens, package boundaries included. */
  lemma {:induction false} PrefixRefused(key: Key, prefix: seq<Octet>, data: seq<Octet>, sequence: nat, cut: nat)
    requires cut < |SealPackages(key, prefix, data, sequence)|
    ensures OpenPackages(key, prefix, SealPackages(key, prefix, data, sequence)[..cut], sequence).Failure?
    decreases |data|
  {
    hide OpenPackage, SealPackage;
    var stream := SealPackages(key, prefix, data, sequence);
    if |data| <= BUF_SIZE {
      PackageRefused(key, prefix, sequence, FINAL, data, cut, FINAL);
    } else {
      var first, rest := SealPackage(key, prefix, sequence, NORMAL, data[..BUF_SIZE]), SealPackages(key, prefix, data[BUF_SIZE..], sequence + 1);
      if cut <= MAX_PACKAGE {
        assert stream[..cut] == first[..cut];
        PackageRefused(key, prefix, sequence, NORMAL, data[..BUF_SIZE], cut, FINAL);
      } else {
        PrefixRefused(key, prefix, data[BUF_SIZE..], sequence + 1, cut - MAX_PACKAGE);
        assert stream[..cut] == first + rest[..cut - MAX_PACKAGE];
        assert stream[..cut][MAX_PACKAGE..] == rest[..cut - MAX_PACKAGE];
      }
    }
  }

  /** Whole packages, none of them marked. */
  function Unmarked(key: Key, prefix: seq<Octet>, data: seq<Octet>, sequence: nat): Cells
    decreases |data|
  {
    if |data| < BUF_SIZE then []
    else SealPackage(key, prefix, sequence, NORMAL, data[..BUF_SIZE]) + Unmarked(key, prefix, data[BUF_SIZE..], sequence + 1)
  }

  /** The other stream that opens to `data`: all packages full and unmarked, then an empty marked one. */
  predicate EmptyLast(key: Key, prefix: seq<Octet>, data: seq<Octet>, sequence: nat, stream: Cells) {
    |data| > 0 && |data| % BUF_SIZE == 0
    && stream == Unmarked(key, prefix, data, sequence) + SealPackage(key, prefix, sequence + |data| / BUF_SIZE, FINAL, [])
  }

  /**
   * A stream opens to `data` if and only if it is the sealed stream of `data`, or the
   * one variant of it that closes a full last package with an empty one.
   */
  lemma {:induction false} OpensIff(key: Key, prefix: seq<Octet>, data: seq<Octet>, sequence: nat, stream: Cells)
    ensures OpenPackages(key, prefix, stream, sequence) == Success(data) <==>
              stream == SealPackages(key, prefix, data, sequence) || EmptyLast(key, prefix, data, sequence, stream)
  {
    hide SealPackages, OpenPackages, EmptyLast;
    if OpenPackages(key, prefix, stream, sequence) == Success(data) {
      OpenedWasSealed(key, prefix, data, sequence, stream);
    }
    if stream == SealPackages(key, prefix, data, sequence) {
      SealedOpens(key, prefix, data, sequence);
    }
    if EmptyLast(key, prefix, data, sequence, stream) {
      EmptyLastOpens(key, prefix, data, sequence, stream);
    }
  }

  lemma UnmarkedStep(key: Key, prefix: seq<Octet>, data: seq<Octet>, sequence: nat, last: Cells)
    requires |data| >= BUF_SIZE
    ensures var stream := Unmarked(key, prefix, data, sequence) + last;
            && |stream| >= MAX_PACKAGE + |last|
            && OpenPackage(key, prefix, sequence, NORMAL, stream[..MAX_PACKAGE]) == Some(data[..BUF_SIZE])
            && stream[MAX_PACKAGE..] == Unmarked(key, prefix, data[BUF_SIZE..], sequence + 1) + last
  {
    hide OpenPackage, SealPackage;
    var first, rest := SealPackage(key, prefix, sequence, NORMAL, data[..BUF_SIZE]), Unmarked(key, prefix, data[BUF_SIZE..], sequence + 1);
    assert (first + rest) + last == first + (rest + last);
    PackageOpensIff(key, prefix, sequence, NORMAL, first, data[..BUF_SIZE]);
  }

  lemma {:induction false} EmptyLastOpens(key: Key, prefix: seq<Octet>, data: seq<Octet>, sequence: nat, stream: Cells)
    requires EmptyLast(key, prefix, data, sequence, stream)
    ensures OpenPackages(key, prefix, stream, sequence) == Success(data)
    decreases |data|
  {
    hide OpenPackage, SealPackage, Unmarked;
    var last := SealPackage(key, prefix, sequence + |data| / BUF_SIZE, FINAL, []);
    UnmarkedStep(key, prefix, data, sequence, last);
    var more, rest := data[BUF_SIZE..], stream[MAX_PACKAGE..];
    assert sequence + 1 + |more| / BUF_SIZE == sequence + |data| / BUF_SIZE;
    if |more| > 0 {
      EmptyLastOpens(key, prefix, more, sequence + 1, rest);
    } else {
      assert rest == last by { NothingUnmarked(key, prefix, more, sequence + 1); }
      PackageOpensIff(key, prefix, sequence + 1, FINAL, rest, []);
      assert more == [];
    }
    assert data == data[..BUF_SIZE] + more;
  }

  lemma NothingUnmarked(key: Key, prefix: seq<Octet>, data: seq<Octet>, sequence: nat)
    requires |data| == 0
    ensures Unmarked(key, prefix, data, sequence) == []
  {
  }

  lemma {:induction false} OpenedWasSealed(key: Key, prefix: seq<Octet>, data: seq<Octet>, sequence: nat, stream: Cells)
    requires OpenPackages(key, prefix, stream, sequence) == Success(data)
    ensures stream == SealPackages(key, prefix, data, sequence) || EmptyLast(key, prefix, data, sequence, stream)
    decreases |stream|
  {
    hide OpenPackage, SealPackage;
    if |stream| <= MAX_PACKAGE {
      PackageOpensIff(key, prefix, sequence, FINAL, stream, data);
    } else {
      var text := OpenPackage(key, prefix, sequence, NORMAL, stream[..MAX_PACKAGE]).value;
      var more := OpenPackages(key, prefix, stream[MAX_PACKAGE..], sequence + 1).value;
      PackageOpensIff(key, prefix, sequence, NORMAL, stream[..MAX_PACKAGE], text);
      OpenedWasSealed(key, prefix, more, sequence + 1, stream[MAX_PACKAGE..]);
      assert |text| == BUF_SIZE && data[..BUF_SIZE] == text && data[BUF_SIZE..] == more;
      assert stream == stream[..MAX_PACKAGE] + stream[MAX_PACKAGE..];
      if |more| == 0 {
        assert more == [] && data == text;
        EmptyRest(key, prefix, text, sequence, stream);
      } else if EmptyLast(key, prefix, more, sequence + 1, stream[MAX_PACKAGE..]) {
        assert |data| / BUF_SIZE == 1 + |more| / BUF_SIZE;
      }
    }
  }

  lemma EmptyRest(key: Key, prefix: seq<Octet>, text: seq<Octet>, sequence: nat, stream: Cells)
    requires |text| == BUF_SIZE && |stream| > MAX_PACKAGE
    requires stream == SealPackage(key, prefix, sequence, NORMAL, text) + SealPackages(key, prefix, [], sequence + 1)
    ensures EmptyLast(key, prefix, text, sequence, stream)
  {
    hide SealPackage;
    var package, none := SealPackage(key, prefix, sequence, NORMAL, text), text[BUF_SIZE..];
    assert text[..BUF_SIZE] == text && |none| == 0;
    assert Unmarked(key, prefix, text, sequence) == package + Unmarked(key, prefix, none, sequence + 1) == package + [] == package;
  }

  /**
   * A blob round-trips for every payload and each of the three schemes, any other id
   * is refused by name, and every proper prefix of a blob is an error.
   */
  lemma BlobRoundTrip(password: string, id: Octet, salt: seq<Octet>, prefix: seq<Octet>, data: seq<Octet>, cut: nat)
    requires |salt| == SALT_LEN && |prefix| == PREFIX_LEN && cut <= |Blob(password, id, salt, prefix, data)|
    ensures var whole, r := |Blob(password, id, salt, prefix, data)|, Decrypted(password, Blob(password, id, salt, prefix, data)[..cut]);
            if cut < HEADER_LEN then r == Failure(Format)
            else if id > 2 then r == Failure(UnsupportedCipher(id))
            else if cut == whole then r == Success(data)
            else r.Failure?
  {
    hide SealPackages, OpenPackages;
    var key := Derived(id, password, salt);
    var header, stream: Cells := Lift(salt + [id] + prefix), SealPackages(key, prefix, data, 1);
    var blob := header + stream;
    if cut >= HEADER_LEN {
      HeaderFields(id, salt, prefix, stream, cut);
      SealedOpens(key, prefix, data, 1);
      assert stream[..|stream|] == stream;
      if cut < |blob| {
        PrefixRefused(key, prefix, data, 1, cut - HEADER_LEN);
      }
    }
  }

  /**
   * What is refused, and how: a header that is not there, a scheme that is unknown, a
   * stream too short for one tag, and any stream sealed under another password.
   */
  lemma RefusedBlobs(password: string, other: string, id: Octet, salt: seq<Octet>, prefix: seq<Octet>, data: seq<Octet>, stream: Cells, blob: Cells)
    requires |salt| == SALT_LEN && |prefix| == PREFIX_LEN && blob == Lift(salt + [id] + prefix) + stream
    ensures forall short: Cells :: |short| < 41 ==> Decrypted(password, short) == Failure(Format)
    ensures id > 2 ==> Decrypted(password, blob) == Failure(UnsupportedCipher(id))
    ensures id <= 2 && |stream| < 16 ==> Decrypted(password, blob) == Failure(Format)
    ensures id <= 2 && password != other && stream == SealPackages(Derived(id, other, salt), prefix, data, 1) ==>
              Decrypted(password, blob) == Failure(Decrypt)
  {
    hide SealPackages;
    HeaderFields(id, salt, prefix, stream, |blob|);
    assert blob[..|blob|] == blob && stream[..|stream|] == stream;
    if id <= 2 && password != other && stream == SealPackages(Derived(id, other, salt), prefix, data, 1) {
      OtherKeyRefused(Derived(id, password, salt), Derived(id, other, salt), prefix, data, 1);
    }
  }

  /** The first package of a stream does not open under another key. */
  lemma OtherKeyRefused(key: Key, other: Key, prefix: seq<Octet>, data: seq<Octet>, sequence: nat)
    requires key != other
    ensures OpenPackages(key, prefix, SealPackages(other, prefix, data, sequence), sequence) == Failure(Decrypt)
  {
    hide SealPackage, OpenPackage;
    var stream := SealPackages(other, prefix, data, sequence);
    if |data| <= BUF_SIZE {
      OtherPackage(key, other, prefix, sequence, FINAL, data);
    } else {
      OtherPackage(key, other, prefix, sequence, NORMAL, data[..BUF_SIZE]);
      assert stream[..MAX_PACKAGE] == SealPackage(other, prefix, sequence, NORMAL, data[..BUF_SIZE]);
    }
  }

  lemma OtherPackage(key: Key, other: Key, prefix: seq<Octet>, sequence: nat, flag: Octet, text: seq<Octet>)
    requires key != other
    ensures OpenPackage(key, prefix, sequence, flag, SealPackage(other, prefix, sequence, flag, text)).None?
  {
    var cells := SealPackage(other, prefix, sequence, flag, text);
    forall t ensures OpenPackage(key, prefix, sequence, flag, cells) != Some(t) {
      PackageOpensIff(key, prefix, sequence, flag, cells, t);
      LastTag(other, prefix, sequence, flag, text);
      LastTag(key, prefix, sequence, flag, t);
    }
  }

  lemma HeaderFields(id: Octet, salt: seq<Octet>, prefix: seq<Octet>, stream: Cells, cut: nat)
    requires |salt| == SALT_LEN && |prefix| == PREFIX_LEN && HEADER_LEN <= cut <= HEADER_LEN + |stream|
    ensures var blob := (Lift(salt + [id] + prefix) + stream)[..cut];
            && Clear(blob[..HEADER_LEN])
            && Lower(blob[..HEADER_LEN]) == salt + [id] + prefix
            && (salt + [id] + prefix)[..SALT_LEN] == salt && (salt + [id] + prefix)[SALT_LEN + 1..] == prefix
            && blob[HEADER_LEN..] == stream[..cut - HEADER_LEN]
  {
    var header: Cells := Lift(salt + [id] + prefix);
    assert (header + stream)[..cut][..HEADER_LEN] == header;
    assert Lower(header) == salt + [id] + prefix;
  }

  /** Sequence numbers 0 (the reference tag) to `packages` give distinct nonces if and only if there are fewer than 2^32 packages. */
  lemma NoncesDistinctIff(prefix: seq<Octet>, packages: nat)
    ensures (forall i: nat, j: nat :: i < j <= packages ==> PackageNonce(prefix, i) != PackageNonce(prefix, j)) <==> packages < WORD
  {
    if packages < WORD {
      forall i: nat, j: nat | i < j <= packages ensures PackageNonce(prefix, i) != PackageNonce(prefix, j) {
        SameNonce(prefix, i, j);
      }
    } else {
      SameNonce(prefix, 0, WORD);
      assert PackageNonce(prefix, 0) == PackageNonce(prefix, WORD);
    }
  }

  lemma SameNonce(prefix: seq<Octet>, i: nat, j: nat)
    ensures PackageNonce(prefix, i) == PackageNonce(prefix, j) <==> i % WORD == j % WORD
  {
    FourOctets(i, j);
    assert PackageNonce(prefix, i)[|prefix|..] == Le4(i) && PackageNonce(prefix, j)[|prefix|..] == Le4(j);
  }
}
