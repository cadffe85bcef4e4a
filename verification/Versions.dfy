/**
 * One object key of the filesystem store: the canonical slot, the version
 * archive and the newest-first history file (src/storage/fs.rs).
 *
 * The class `KeyFiles` keeps the files the way the store does, moving payloads
 * between the slot and the archive. `Abs` reads the files back as one
 * newest-first list of versions. Every operation is proved to keep the files
 * coherent and to act on that list as the plain list operation of `Spec`.
 */
module Versions {
  import opened Wrappers

  type Bytes = seq<bv8>

  datatype Mode = Off | Enabled | Suspended

  datatype Error = NoSuchKey | NoSuchVersion | MethodNotAllowed | Internal

  /** A payload file: its bytes and its modification time. */
  datatype File = File(data: Bytes, mtime: int)

  /** The metadata sidecar of a stored payload. */
  datatype Stored = Stored(etag: string, size: nat, contentType: string, userMetadata: map<string, string>,
                           lastModified: int, encrypted: bool, versionId: Option<string>)

  /** One record of the history file. */
  datatype Entry = Entry(versionId: string, deleteMarker: bool, lastModified: int, etag: string, size: nat)

  /** What a caller stores: the payload and the metadata computed while streaming it. */
  datatype Upload = Upload(file: File, etag: string, size: nat, contentType: string,
                           userMetadata: map<string, string>, lastModified: int, encrypted: bool)

  datatype DeleteOutcome = DeleteOutcome(versionId: Option<string>, deleteMarker: bool)

  const NULL := "null"

  // ---------------------------------------------------------------------------
  // The plain list of versions
  // ---------------------------------------------------------------------------

  datatype Version =
    | Real(entry: Entry, file: File, meta: Option<Stored>)
    | Marker(entry: Entry)
  {
    function Id(): string { entry.versionId }
  }

  /** The abstract state: the list, newest first, and whether the key has a history file. */
  datatype Log = Log(versions: seq<Version>, versioned: bool)

  function Ids(vs: seq<Version>): set<string> {
    set v | v in vs :: v.Id()
  }

  ghost predicate Distinct(vs: seq<Version>) {
    forall i, j :: 0 <= i < j < |vs| ==> vs[i].Id() != vs[j].Id()
  }

  /** The version named `id`, if the list has one. */
  function Lookup(vs: seq<Version>, id: string): Option<Version> {
    if vs == [] then None
    else if vs[0].Id() == id then Some(vs[0])
    else Lookup(vs[1..], id)
  }

  /** The list without its first version named `id`. */
  function Without(vs: seq<Version>, id: string): seq<Version> {
    if vs == [] then []
    else if vs[0].Id() == id then vs[1..]
    else [vs[0]] + Without(vs[1..], id)
  }

  /** What a new version finds below itself: suspended mode first drops the "null" version. */
  function Kept(vs: seq<Version>, mode: Mode): seq<Version> {
    if mode.Suspended? then Without(vs, NULL) else vs
  }

  function NewId(mode: Mode, uuid: string): string {
    if mode.Enabled? then uuid else NULL
  }

  function StoredOf(u: Upload, vid: Option<string>): Stored {
    Stored(u.etag, u.size, u.contentType, u.userMetadata, u.lastModified, u.encrypted, vid)
  }

  function EntryOf(u: Upload, vid: string): Entry {
    Entry(vid, false, u.lastModified, u.etag, u.size)
  }

  function MarkerEntry(vid: string, now: int): Entry {
    Entry(vid, true, now, "", 0)
  }

  datatype Op =
    | Write(mode: Mode, uuid: string, upload: Upload)
    | Delete(mode: Mode, uuid: string, now: int)
    | DeleteVersion(id: string)
    | ReadVersion(id: string)

  /** Generated ids are new. */
  predicate NewUuid(l: Log, mode: Mode, uuid: string) {
    mode.Enabled? ==> uuid != NULL && uuid !in Ids(l.versions)
  }

  /**
   * What the environment owes: generated ids are new, and a bucket is never back
   * in the unversioned mode while the key has a history.
   */
  predicate Legal(l: Log, op: Op) {
    match op
    case Write(mode, uuid, _) => (mode.Off? ==> !l.versioned) && NewUuid(l, mode, uuid)
    case Delete(mode, uuid, _) => (mode.Off? ==> !l.versioned) && NewUuid(l, mode, uuid)
    case DeleteVersion(_) => true
    case ReadVersion(_) => true
  }

  /** A key that is addressed by version gets a history as soon as it has an object. */
  function Seeded(l: Log): Log {
    Log(l.versions, l.versioned || l.versions != [])
  }

  /** The list semantics of one operation. */
  function Spec(l: Log, op: Op): Log {
    match op
    case Write(mode, uuid, u) =>
      if mode.Off? then
        Log([Real(EntryOf(u, NULL), u.file, Some(StoredOf(u, None)))], false)
      else
        var vid := NewId(mode, uuid);
        Log([Real(EntryOf(u, vid), u.file, Some(StoredOf(u, Some(vid))))] + Kept(l.versions, mode), true)
    case Delete(mode, uuid, now) =>
      if mode.Off? then Log([], false)
      else Log([Marker(MarkerEntry(NewId(mode, uuid), now))] + Kept(l.versions, mode), true)
    case DeleteVersion(id) =>
      if Lookup(l.versions, id).None? then Seeded(l)
      else var rest := Without(l.versions, id); Log(rest, rest != [])
    case ReadVersion(id) => Seeded(l)
  }

  function RunSpec(l: Log, ops: seq<Op>): Log
    decreases |ops|
  {
    if ops == [] then l else RunSpec(Spec(l, ops[0]), ops[1..])
  }

  predicate LegalRun(l: Log, ops: seq<Op>)
    decreases |ops|
  {
    ops == [] || (Legal(l, ops[0]) && LegalRun(Spec(l, ops[0]), ops[1..]))
  }

  /** Whether `op` is entitled to change or remove the version named `id`. */
  predicate Touches(op: Op, id: string) {
    match op
    case Write(mode, _, _) => mode.Off? || (mode.Suspended? && id == NULL)
    case Delete(mode, _, _) => mode.Off? || (mode.Suspended? && id == NULL)
    case DeleteVersion(d) => d == id
    case ReadVersion(_) => false
  }

  // ---------------------------------------------------------------------------
  // Facts about the list
  // ---------------------------------------------------------------------------

  lemma {:induction false} LookupIn(vs: seq<Version>, id: string)
    ensures Lookup(vs, id).Some? <==> id in Ids(vs)
    ensures Lookup(vs, id).Some? ==> Lookup(vs, id).value in vs && Lookup(vs, id).value.Id() == id
  {
    if vs != [] && vs[0].Id() != id {
      LookupIn(vs[1..], id);
      assert forall v :: v in vs <==> v == vs[0] || v in vs[1..];
    }
  }

  lemma {:induction false} LookupWithout(vs: seq<Version>, id: string, other: string)
    requires other != id
    ensures Lookup(Without(vs, id), other) == Lookup(vs, other)
  {
    if vs != [] && vs[0].Id() != id {
      LookupWithout(vs[1..], id, other);
      assert ([vs[0]] + Without(vs[1..], id))[1..] == Without(vs[1..], id);
    }
  }

  /** In a list with distinct ids, dropping an id leaves the others, still distinct. */
  lemma WithoutDistinct(vs: seq<Version>, id: string)
    requires Distinct(vs)
    ensures Distinct(Without(vs, id))
    ensures Lookup(Without(vs, id), id) == None
    ensures forall x :: x in Ids(Without(vs, id)) ==> x in Ids(vs) && x != id
  {
    hide Lookup, Without;
    if i: nat :| i < |vs| && vs[i].Id() == id {
      LookupAt(vs, id, i);
      CutDistinct(vs, i);
    } else {
      LookupNowhere(vs, id);
    }
    LookupNowhere(Without(vs, id), id);
  }

  lemma CutDistinct(vs: seq<Version>, i: nat)
    requires Distinct(vs) && i < |vs|
    ensures var kept := vs[..i] + vs[i + 1..];
            && Distinct(kept)
            && (forall k :: 0 <= k < |kept| ==> kept[k].Id() != vs[i].Id())
            && (forall x :: x in Ids(kept) ==> x in Ids(vs) && x != vs[i].Id())
  {
    var kept := vs[..i] + vs[i + 1..];
    forall k | 0 <= k < |kept| ensures kept[k] == vs[if k < i then k else k + 1] && kept[k].Id() != vs[i].Id() {}
  }

  /** One legal step keeps ids distinct (so at most one "null") and leaves every version it may not touch as it was. */
  lemma {:induction false} SpecStep(l: Log, op: Op, id: string)
    requires Distinct(l.versions) && Legal(l, op)
    ensures Distinct(Spec(l, op).versions)
    ensures !Touches(op, id) && id in Ids(l.versions) ==>
              Lookup(Spec(l, op).versions, id) == Lookup(l.versions, id)
  {
    LookupIn(l.versions, id);
    match op {
      case Write(mode, uuid, u) =>
        if !mode.Off? { NewHeadStep(l.versions, mode, Spec(l, op).versions[0], id); }
      case Delete(mode, uuid, now) =>
        if !mode.Off? { NewHeadStep(l.versions, mode, Spec(l, op).versions[0], id); }
      case DeleteVersion(d) =>
        WithoutDistinct(l.versions, d);
        if id != d { LookupWithout(l.versions, d, id); }
      case ReadVersion(_) =>
    }
  }

  lemma NewHeadStep(vs: seq<Version>, mode: Mode, head: Version, id: string)
    requires Distinct(vs)
    requires if mode.Suspended? then head.Id() == NULL else head.Id() !in Ids(vs)
    ensures Distinct([head] + Kept(vs, mode))
    ensures id in Ids(vs) && !(mode.Suspended? && id == NULL) ==>
              Lookup([head] + Kept(vs, mode), id) == Lookup(vs, id)
  {
    var kept := Kept(vs, mode);
    if mode.Suspended? {
      WithoutDistinct(vs, NULL);
      if id != NULL { LookupWithout(vs, NULL, id); }
    }
    HeadIsNew(head, kept);
    assert ([head] + kept)[1..] == kept;
  }

  lemma HeadIsNew(v: Version, vs: seq<Version>)
    requires Distinct(vs) && v.Id() !in Ids(vs)
    ensures Distinct([v] + vs)
  {
    forall i, j | 0 <= i < j < |vs| + 1 ensures ([v] + vs)[i].Id() != ([v] + vs)[j].Id() {
      if i == 0 { assert vs[j - 1].Id() in Ids(vs); }
    }
  }

  /**
   * Over every legal run, ids stay distinct, and a version keeps its bytes and
   * metadata for as long as no operation of the run may touch it.
   */
  lemma {:induction false} VersionsAreImmutable(l: Log, ops: seq<Op>, id: string)
    requires Distinct(l.versions) && LegalRun(l, ops)
    ensures Distinct(RunSpec(l, ops).versions)
    ensures id in Ids(l.versions) && (forall op :: op in ops ==> !Touches(op, id)) ==>
              Lookup(RunSpec(l, ops).versions, id) == Lookup(l.versions, id)
    decreases |ops|
  {
    if ops != [] {
      SpecStep(l, ops[0], id);
      LookupIn(l.versions, id);
      LookupIn(Spec(l, ops[0]).versions, id);
      VersionsAreImmutable(Spec(l, ops[0]), ops[1..], id);
      assert forall op :: op in ops[1..] ==> op in ops;
    }
  }

  // ---------------------------------------------------------------------------
  // The files and what they represent
  // ---------------------------------------------------------------------------

  /** All files of one key. */
  datatype Files = Files(slot: Option<File>, sidecar: Option<Stored>, archive: map<string, File>,
                         archiveMeta: map<string, Stored>, history: Option<seq<Entry>>)

  /** Metadata rebuilt from `stat` when the sidecar is missing. */
  function FromStat(f: File, lastModified: int, vid: Option<string>): Stored {
    Stored("", |f.data|, "application/octet-stream", map[], lastModified, false, vid)
  }

  function CanonicalMeta(slot: File, sidecar: Option<Stored>): Stored {
    sidecar.GetOr(FromStat(slot, slot.mtime, None))
  }

  function LegacyEntry(slot: File, sidecar: Option<Stored>): Entry {
    var s := CanonicalMeta(slot, sidecar);
    Entry(NULL, false, s.lastModified, s.etag, s.size)
  }

  function MapGet<V>(m: map<string, V>, k: string): Option<V> {
    if k in m then Some(m[k]) else None
  }

  /** A record and the sidecar of its payload tell the same etag, size and time. */
  predicate Agrees(e: Entry, s: Option<Stored>) {
    s.Some? ==> s.value.etag == e.etag && s.value.size == e.size && s.value.lastModified == e.lastModified
  }

  ghost predicate DistinctEntries(h: seq<Entry>) {
    forall i, j :: 0 <= i < j < |h| ==> h[i].versionId != h[j].versionId
  }

  /** The archive holds exactly the payloads of the real records of `h` from index `from` on. */
  ghost predicate Archived(h: seq<Entry>, from: nat, archive: map<string, File>, archiveMeta: map<string, Stored>) {
    && archiveMeta.Keys <= archive.Keys
    && (forall i :: from <= i < |h| && !h[i].deleteMarker ==>
          h[i].versionId in archive && Agrees(h[i], MapGet(archiveMeta, h[i].versionId)))
    && (forall id :: id in archive ==> HasReal(h, from, id))
  }

  ghost predicate HasReal(h: seq<Entry>, from: nat, id: string) {
    exists i :: from <= i < |h| && !h[i].deleteMarker && h[i].versionId == id
  }

  /** The invariant of the files of a key between operations. */
  ghost predicate Coherent(f: Files) {
    && (f.sidecar.Some? ==> f.slot.Some?)
    && match f.history
       case None => f.archive == map[] && f.archiveMeta == map[]
       case Some(h) =>
         && h != [] && DistinctEntries(h)
         && (f.slot.Some? <==> !h[0].deleteMarker)
         && (f.slot.Some? ==> Agrees(h[0], f.sidecar))
         && Archived(h, 1, f.archive, f.archiveMeta)
  }

  function Shelved(e: Entry, archive: map<string, File>, archiveMeta: map<string, Stored>): Version {
    if e.deleteMarker || e.versionId !in archive then Marker(e)
    else Real(e, archive[e.versionId], MapGet(archiveMeta, e.versionId))
  }

  /** The versions of `h` with every real payload taken from the archive. */
  function Shelf(h: seq<Entry>, archive: map<string, File>, archiveMeta: map<string, Stored>): (vs: seq<Version>)
    ensures |vs| == |h|
  {
    seq(|h|, i requires 0 <= i < |h| => Shelved(h[i], archive, archiveMeta))
  }

  function Head(e: Entry, slot: Option<File>, sidecar: Option<Stored>): Version {
    if e.deleteMarker || slot.None? then Marker(e) else Real(e, slot.value, sidecar)
  }

  /** The newest-first list the files stand for. */
  function Abs(f: Files): Log {
    match f.history
    case None =>
      (match f.slot
       case None => Log([], false)
       case Some(file) => Log([Real(LegacyEntry(file, f.sidecar), file, f.sidecar)], false))
    case Some(h) =>
      if h == [] then Log([], true)
      else Log([Head(h[0], f.slot, f.sidecar)] + Shelf(h[1..], f.archive, f.archiveMeta), true)
  }

  /** Index of the record named `vid`. */
  function Position(h: seq<Entry>, vid: string): (r: Option<nat>)
    ensures r.Some? ==> r.value < |h| && h[r.value].versionId == vid
    ensures r.Some? ==> forall i :: 0 <= i < r.value ==> h[i].versionId != vid
    ensures r.None? ==> forall i :: 0 <= i < |h| ==> h[i].versionId != vid
  {
    if h == [] then None
    else if h[0].versionId == vid then Some(0)
    else match Position(h[1..], vid)
         case None => None
         case Some(i) => Some(i + 1)
  }

  function Removed(h: seq<Entry>, i: nat): seq<Entry>
    requires i < |h|
  {
    h[..i] + h[i + 1..]
  }

  // The list operations, index by index.

  lemma {:induction false} LookupAt(vs: seq<Version>, id: string, i: nat)
    requires i < |vs| && vs[i].Id() == id && forall k :: 0 <= k < i ==> vs[k].Id() != id
    ensures Lookup(vs, id) == Some(vs[i])
    ensures Without(vs, id) == vs[..i] + vs[i + 1..]
  {
    if i == 0 {
      assert vs[..0] + vs[1..] == vs[1..];
    } else {
      LookupAt(vs[1..], id, i - 1);
      assert [vs[0]] + (vs[1..][..i - 1] + vs[1..][i..]) == vs[..i] + vs[i + 1..];
    }
  }

  lemma {:induction false} LookupNowhere(vs: seq<Version>, id: string)
    requires forall k :: 0 <= k < |vs| ==> vs[k].Id() != id
    ensures Lookup(vs, id) == None
    ensures Without(vs, id) == vs
  {
    if vs != [] {
      LookupNowhere(vs[1..], id);
      assert [vs[0]] + vs[1..] == vs;
    }
  }


  // The steps between two coherent states: a history `h` in hand, not yet written.

  /** The files hold `h`: a head in the slot when the slot is occupied, all other real records archived. */
  ghost predicate Holds(f: Files, h: seq<Entry>) {
    && DistinctEntries(h)
    && (f.slot.None? ==> f.sidecar.None?)
    && (f.slot.Some? ==> h != [] && !h[0].deleteMarker && Agrees(h[0], f.sidecar))
    && Archived(h, if f.slot.Some? then 1 else 0, f.archive, f.archiveMeta)
  }

  /** The versions of `h` as the files hold them. */
  function Listed(f: Files, h: seq<Entry>): seq<Version> {
    if f.slot.Some? && h != [] then [Real(h[0], f.slot.value, f.sidecar)] + Shelf(h[1..], f.archive, f.archiveMeta)
    else Shelf(h, f.archive, f.archiveMeta)
  }

  lemma ListedEntries(f: Files, h: seq<Entry>)
    requires Holds(f, h)
    ensures |Listed(f, h)| == |h|
    ensures forall i :: 0 <= i < |h| ==> Listed(f, h)[i].entry == h[i]
    ensures forall i :: 0 <= i < |h| ==> (Listed(f, h)[i].Real? <==> !h[i].deleteMarker)
    ensures Distinct(Listed(f, h))
  {
    var vs := Listed(f, h);
    forall i | 0 <= i < |h| ensures vs[i].entry == h[i] && (vs[i].Real? <==> !h[i].deleteMarker) {
      if f.slot.Some? && i > 0 { assert vs[i] == Shelved(h[1..][i - 1], f.archive, f.archiveMeta); }
    }
  }

  /** Between operations the files hold their history, and `Abs` lists it. */
  lemma CoherentHolds(f: Files)
    requires Coherent(f) && f.history.Some?
    ensures Holds(f, f.history.value)
    ensures Abs(f) == Log(Listed(f, f.history.value), true)
  {
    var h := f.history.value;
    if f.slot.None? {
      assert Shelf(h, f.archive, f.archiveMeta) == [Marker(h[0])] + Shelf(h[1..], f.archive, f.archiveMeta);
    }
  }

  /** Files that hold a non-empty history whose head is real exactly when the slot is occupied are coherent once it is written. */
  lemma HoldsCoherent(f: Files, h: seq<Entry>)
    requires Holds(f, h) && h != [] && (f.slot.None? ==> h[0].deleteMarker)
    ensures Coherent(f.(history := Some(h)))
    ensures Abs(f.(history := Some(h))) == Log(Listed(f, h), true)
  {
    if f.slot.None? {
      assert Shelf(h, f.archive, f.archiveMeta) == [Marker(h[0])] + Shelf(h[1..], f.archive, f.archiveMeta);
    }
  }

  /** With no record left there is no file left. */
  lemma HoldsNothing(f: Files)
    requires Holds(f, [])
    ensures Coherent(f.(history := None)) && Abs(f.(history := None)) == Log([], false)
  {
    assert forall id :: id in f.archive ==> HasReal([], 0, id);
  }

  /** Write the history back, or remove its file when it is empty. */
  function Saved(h: seq<Entry>): Option<seq<Entry>> {
    if h == [] then None else Some(h)
  }

  lemma SaveHistory(f: Files, h: seq<Entry>)
    requires Holds(f, h) && (f.slot.None? ==> h == [] || h[0].deleteMarker)
    ensures Coherent(f.(history := Saved(h)))
    ensures Abs(f.(history := Saved(h))) == Log(Listed(f, h), h != [])
  {
    if h == [] { HoldsNothing(f); } else { HoldsCoherent(f, h); }
  }

  /** The files after record `i` of `h` is dropped with its payload. */
  function DropPayload(f: Files, h: seq<Entry>, i: nat): Files
    requires i < |h|
  {
    if i == 0 && f.slot.Some? then f.(slot := None, sidecar := None)
    else if !h[i].deleteMarker then
      f.(archive := f.archive - {h[i].versionId}, archiveMeta := f.archiveMeta - {h[i].versionId})
    else f
  }

  lemma DropHolds(f: Files, h: seq<Entry>, i: nat)
    requires Holds(f, h) && i < |h|
    ensures Holds(DropPayload(f, h, i), Removed(h, i))
  {
    var f', h' := DropPayload(f, h, i), Removed(h, i);
    RemovedDistinct(h, i);
    DropArchived(h, if f.slot.Some? then 1 else 0, f.archive, f.archiveMeta, i);
  }

  lemma RemovedDistinct(h: seq<Entry>, i: nat)
    requires DistinctEntries(h) && i < |h|
    ensures DistinctEntries(Removed(h, i))
  {
    var h' := Removed(h, i);
    forall a, b | 0 <= a < b < |h'| ensures h'[a].versionId != h'[b].versionId {
      assert h'[a] == h[if a < i then a else a + 1] && h'[b] == h[if b < i then b else b + 1];
    }
  }

  /** The records behind a dropped one. */
  lemma DropRecord(h: seq<Entry>, i: nat, k: nat)
    requires DistinctEntries(h) && i < |h| && k < |h| - 1
    ensures Removed(h, i)[k] == h[if k < i then k else k + 1] && Removed(h, i)[k].versionId != h[i].versionId
  {
  }

  lemma DropReal(h: seq<Entry>, from: nat, i: nat, id: string)
    requires i < |h| && from <= 1 && HasReal(h, from, id)
    requires i < from || h[i].deleteMarker || id != h[i].versionId
    ensures HasReal(Removed(h, i), if i < from then 0 else from, id)
  {
    var k :| from <= k < |h| && !h[k].deleteMarker && h[k].versionId == id;
    assert Removed(h, i)[if k < i then k else k - 1] == h[k];
  }

  /** Dropping record `i` with its archived payload, or a head that is not archived. */
  lemma DropArchived(h: seq<Entry>, from: nat, archive: map<string, File>, archiveMeta: map<string, Stored>, i: nat)
    requires DistinctEntries(h) && Archived(h, from, archive, archiveMeta) && i < |h| && from <= 1
    ensures i < from ==> Archived(Removed(h, i), 0, archive, archiveMeta)
    ensures i >= from && h[i].deleteMarker ==> Archived(Removed(h, i), from, archive, archiveMeta)
    ensures i >= from && !h[i].deleteMarker ==>
              Archived(Removed(h, i), from, archive - {h[i].versionId}, archiveMeta - {h[i].versionId})
  {
    var h' := Removed(h, i);
    assert |h'| == |h| - 1;
    hide Removed, HasReal, DistinctEntries, Agrees;
    var from' := if i < from then 0 else from;
    forall k | from' <= k < |h'|
      ensures h'[k].versionId != h[i].versionId
      ensures !h'[k].deleteMarker ==> h'[k].versionId in archive && Agrees(h'[k], MapGet(archiveMeta, h'[k].versionId))
    {
      DropRecord(h, i, k);
    }
    forall id | id in archive && (i < from || h[i].deleteMarker || id != h[i].versionId) ensures HasReal(h', from', id) {
      DropReal(h, from, i, id);
    }
  }

  lemma DropShape(f: Files, h: seq<Entry>, i: nat)
    requires Holds(f, h) && i < |h|
    ensures Holds(DropPayload(f, h, i), Removed(h, i))
    ensures |Listed(f, h)| == |h| && |Listed(DropPayload(f, h, i), Removed(h, i))| == |h| - 1
    ensures Distinct(Listed(f, h)) && Listed(f, h)[i].Id() == h[i].versionId
  {
    hide DropPayload, Listed, Holds;
    ListedEntries(f, h);
    DropHolds(f, h, i);
    ListedEntries(DropPayload(f, h, i), Removed(h, i));
  }

  /** Dropping a record with its payload removes exactly that version from the list. */
  lemma Drop(f: Files, h: seq<Entry>, i: nat)
    requires Holds(f, h) && i < |h|
    ensures Holds(DropPayload(f, h, i), Removed(h, i))
    ensures Listed(DropPayload(f, h, i), Removed(h, i)) == Without(Listed(f, h), h[i].versionId)
    ensures Lookup(Listed(f, h), h[i].versionId) == Some(Listed(f, h)[i])
  {
    DropShape(f, h, i);
    hide Listed, Without, Removed, DropPayload, Holds, Lookup;
    var vs, vs' := Listed(f, h), Listed(DropPayload(f, h, i), Removed(h, i));
    LookupAt(vs, h[i].versionId, i);
    forall k | 0 <= k < |vs'| ensures vs'[k] == vs[if k < i then k else k + 1] {
      DropAt(f, h, i, k);
    }
    WithoutOne(vs, vs', i);
  }

  lemma WithoutOne<T>(vs: seq<T>, vs': seq<T>, i: nat)
    requires i < |vs| && |vs'| == |vs| - 1 && forall k :: 0 <= k < |vs'| ==> vs'[k] == vs[if k < i then k else k + 1]
    ensures vs' == vs[..i] + vs[i + 1..]
  {
  }

  lemma DropForDelete(f: Files, h: seq<Entry>, i: nat)
    requires Holds(f, h) && i < |h| && (f.slot.Some? <==> !h[0].deleteMarker)
    ensures var f', h' := DropPayload(f, h, i), Removed(h, i);
            && Holds(f', h')
            && Listed(f', h') == Without(Listed(f, h), h[i].versionId)
            && (h' == [] <==> Listed(f', h') == [])
            && (if i == 0 then f'.slot.None? else h' != [] && (f'.slot.None? ==> h'[0].deleteMarker))
    ensures Lookup(Listed(f, h), h[i].versionId).Some?
    ensures Lookup(Listed(f, h), h[i].versionId).value.Marker? <==> h[i].deleteMarker
  {
    Drop(f, h, i);
    ListedEntries(f, h);
    ListedEntries(DropPayload(f, h, i), Removed(h, i));
  }

  lemma NotListed(f: Files, h: seq<Entry>, id: string)
    requires Holds(f, h) && forall i :: 0 <= i < |h| ==> h[i].versionId != id
    ensures Lookup(Listed(f, h), id) == None
  {
    ListedEntries(f, h);
    LookupNowhere(Listed(f, h), id);
  }

  lemma ListedAt(f: Files, h: seq<Entry>, k: nat)
    requires Holds(f, h) && k < |h|
    ensures |Listed(f, h)| == |h|
    ensures Listed(f, h)[k] == if k == 0 && f.slot.Some? then Real(h[0], f.slot.value, f.sidecar)
                               else Shelved(h[k], f.archive, f.archiveMeta)
  {
  }

  lemma ShelvedOther(e: Entry, archive: map<string, File>, archiveMeta: map<string, Stored>, id: string)
    requires e.versionId != id
    ensures Shelved(e, archive - {id}, archiveMeta - {id}) == Shelved(e, archive, archiveMeta)
  {
  }

  lemma DropAt(f: Files, h: seq<Entry>, i: nat, k: nat)
    requires Holds(f, h) && i < |h| && k < |h| - 1
    requires |Listed(f, h)| == |h|
    requires |Listed(DropPayload(f, h, i), Removed(h, i))| == |h| - 1
    ensures Listed(DropPayload(f, h, i), Removed(h, i))[k] == Listed(f, h)[if k < i then k else k + 1]
  {
    var f', h', j := DropPayload(f, h, i), Removed(h, i), if k < i then k else k + 1;
    hide Archived, Agrees, Shelf, Listed;
    assert h'[k] == h[j] && h[j].versionId != h[i].versionId;
    ShelvedOther(h[j], f.archive, f.archiveMeta, h[i].versionId);
    ListedAt(f, h, j);
    DropHolds(f, h, i);
    ListedAt(f', h', k);
  }

  /** Moving a real head into the archive leaves the list as it was. */
  lemma Demote(f: Files, h: seq<Entry>, f': Files)
    requires Holds(f, h) && f.slot.Some?
    requires f'.slot.None? && f'.sidecar.None?
    requires f'.archive == f.archive[h[0].versionId := f.slot.value]
    requires f'.archiveMeta == match f.sidecar
                               case Some(s) => f.archiveMeta[h[0].versionId := s]
                               case None => f.archiveMeta
    ensures Holds(f', h)
    ensures Listed(f', h) == Listed(f, h)
  {
    var id0 := h[0].versionId;
    assert id0 !in f.archive && id0 !in f.archiveMeta;
    assert MapGet(f'.archiveMeta, id0) == f.sidecar;
    forall k | 1 <= k < |h|
      ensures (h[k].versionId in f'.archive) == (h[k].versionId in f.archive)
      ensures MapGet(f'.archiveMeta, h[k].versionId) == MapGet(f.archiveMeta, h[k].versionId)
      ensures Shelved(h[k], f'.archive, f'.archiveMeta) == Shelved(h[k], f.archive, f.archiveMeta)
    {
      assert h[k].versionId != id0;
    }
    forall id | id in f'.archive
      ensures HasReal(h, 0, id)
    {
      if id == id0 { assert !h[0].deleteMarker && h[0].versionId == id; }
    }
    ShelfCons(f', h);
    assert Shelf(h[1..], f'.archive, f'.archiveMeta) == Shelf(h[1..], f.archive, f.archiveMeta);
  }

  lemma ShelfCons(f: Files, h: seq<Entry>)
    requires h != []
    ensures Shelf(h, f.archive, f.archiveMeta) ==
              [Shelved(h[0], f.archive, f.archiveMeta)] + Shelf(h[1..], f.archive, f.archiveMeta)
  {
  }

  /** Moving the newest archived version into the free slot leaves the list as it was. */
  lemma Promote(f: Files, h: seq<Entry>, f': Files)
    requires Holds(f, h) && f.slot.None? && h != [] && !h[0].deleteMarker
    requires f'.slot == Some(f.archive[h[0].versionId])
    requires f'.sidecar == MapGet(f.archiveMeta, h[0].versionId)
    requires f'.archive == f.archive - {h[0].versionId} && f'.archiveMeta == f.archiveMeta - {h[0].versionId}
    ensures Holds(f', h)
    ensures Listed(f', h) == Listed(f, h)
  {
    hide Agrees, HasReal;
    forall k | 1 <= k < |h|
      ensures h[k].versionId != h[0].versionId
      ensures MapGet(f'.archiveMeta, h[k].versionId) == MapGet(f.archiveMeta, h[k].versionId)
    {
    }
    forall id | id in f'.archive ensures HasReal(h, 1, id) {
      RealBehindHead(h, id);
    }
    PromoteListed(f, h, f');
  }

  lemma RealBehindHead(h: seq<Entry>, id: string)
    requires HasReal(h, 0, id) && h[0].versionId != id
    ensures HasReal(h, 1, id)
  {
    var k :| 0 <= k < |h| && !h[k].deleteMarker && h[k].versionId == id;
    assert k != 0;
  }

  lemma PromoteListed(f: Files, h: seq<Entry>, f': Files)
    requires Holds(f, h) && f.slot.None? && h != [] && !h[0].deleteMarker
    requires f'.slot == Some(f.archive[h[0].versionId]) && f'.sidecar == MapGet(f.archiveMeta, h[0].versionId)
    requires f'.archive == f.archive - {h[0].versionId} && f'.archiveMeta == f.archiveMeta - {h[0].versionId}
    ensures Listed(f', h) == Listed(f, h)
  {
    hide Agrees, HasReal;
    forall k | 1 <= k < |h| ensures Shelved(h[k], f'.archive, f'.archiveMeta) == Shelved(h[k], f.archive, f.archiveMeta) {
      ShelvedOther(h[k], f.archive, f.archiveMeta, h[0].versionId);
    }
    ShelfCons(f, h);
    assert Shelf(h[1..], f'.archive, f'.archiveMeta) == Shelf(h[1..], f.archive, f.archiveMeta);
  }

  /** A new record on top of an all-archived history. */
  lemma NewHead(f: Files, h: seq<Entry>, e: Entry, slot: Option<File>, sidecar: Option<Stored>)
    requires Holds(f, h) && f.slot.None?
    requires forall i :: 0 <= i < |h| ==> h[i].versionId != e.versionId
    requires slot.Some? <==> !e.deleteMarker
    requires sidecar.Some? ==> slot.Some? && Agrees(e, sidecar)
    ensures var f' := f.(slot := slot, sidecar := sidecar, history := Some([e] + h));
            Coherent(f') && Abs(f') == Log([Head(e, slot, sidecar)] + Listed(f, h), true)
  {
    var h' := [e] + h;
    assert h'[1..] == h;
    forall id | id in f.archive
      ensures HasReal(h', 1, id)
    {
      var k :| 0 <= k < |h| && !h[k].deleteMarker && h[k].versionId == id;
      assert h'[k + 1] == h[k];
    }
  }

  // ---------------------------------------------------------------------------
  // The store
  // ---------------------------------------------------------------------------

  /** What an unversioned write and delete do to the files, whatever the history says. */
  function OffWritten(f: Files, u: Upload): Files {
    f.(slot := Some(u.file), sidecar := Some(StoredOf(u, None)))
  }

  function OffDeleted(f: Files): Files {
    f.(slot := None, sidecar := None)
  }

  // ---------------------------------------------------------------------------
  // Reading a version by id
  // ---------------------------------------------------------------------------

  /** Seeding: a key with an object and no history gets the one-record "null" history. */
  function SeededFiles(f: Files): Files {
    if f.history.None? && f.slot.Some? then f.(history := Some([LegacyEntry(f.slot.value, f.sidecar)])) else f
  }

  lemma SeededCoherent(f: Files)
    requires Coherent(f)
    ensures Coherent(SeededFiles(f)) && Abs(SeededFiles(f)) == Seeded(Abs(f))
    ensures SeededFiles(f).history.None? ==> f.slot.None?
  {
  }

  /** What reading a version answers on any files, coherent or not. */
  function VersionAnswer(f: Files, id: string, now: int): Result<(Stored, Bytes), Error> {
    var g := SeededFiles(f);
    var h := g.history.GetOr([]);
    match Position(h, id)
    case None => Failure(NoSuchVersion)
    case Some(i) =>
      if h[i].deleteMarker then Failure(MethodNotAllowed)
      else if i == 0 then
        if g.slot.None? then Failure(NoSuchKey)
        else Success((CanonicalMeta(g.slot.value, g.sidecar).(versionId := Some(id)), g.slot.value.data))
      else if id !in g.archive then Failure(NoSuchVersion)
      else
        var meta := MapGet(g.archiveMeta, id).GetOr(FromStat(g.archive[id], now, Some(id)));
        Success((meta.(versionId := Some(id)), g.archive[id].data))
  }

  /** On coherent files it is what the list has under that id. */
  lemma VersionAnswerIsListed(f: Files, id: string, now: int)
    requires Coherent(f)
    ensures match Lookup(Abs(f).versions, id)
            case None => VersionAnswer(f, id, now) == Failure(NoSuchVersion)
            case Some(Marker(_)) => VersionAnswer(f, id, now) == Failure(MethodNotAllowed)
            case Some(Real(e, file, meta)) =>
              VersionAnswer(f, id, now) ==
                var mtime := if Abs(f).versions[0] == Real(e, file, meta) then file.mtime else now;
                Success((meta.GetOr(FromStat(file, mtime, None)).(versionId := Some(id)), file.data))
  {
    var g := SeededFiles(f);
    var h := g.history.GetOr([]);
    SeededCoherent(f);
    if g.history.Some? {
      CoherentHolds(g);
      ListedEntries(g, h);
      var vs := Listed(g, h);
      match Position(h, id) {
        case None => LookupNowhere(vs, id);
        case Some(i) =>
          LookupAt(vs, id, i);
          ListedAt(g, h, i);
          assert vs[0].entry.versionId == h[0].versionId;
      }
    }
  }

  class KeyFiles {
    var slot: Option<File>
    var sidecar: Option<Stored>
    var archive: map<string, File>
    var archiveMeta: map<string, Stored>
    var history: Option<seq<Entry>>

    function Snapshot(): Files
      reads this
    {
      Files(slot, sidecar, archive, archiveMeta, history)
    }

    constructor ()
      ensures Coherent(Snapshot()) && Abs(Snapshot()) == Log([], false)
    {
      slot, sidecar, archive, archiveMeta, history := None, None, map[], map[], None;
    }

    method ReadStored() returns (r: Result<Stored, Error>)
      ensures r == if slot.Some? then Success(CanonicalMeta(slot.value, sidecar)) else Failure(NoSuchKey)
    {
      match slot {
        case None => r := Failure(NoSuchKey);
        case Some(file) =>
          match sidecar {
            case Some(s) => r := Success(s);
            case None => r := Success(FromStat(file, file.mtime, None));
          }
      }
    }

    method ReadHistory() returns (h: seq<Entry>)
      ensures h == history.GetOr([])
    {
      h := history.GetOr([]);
    }

    /** Give a key without history the one-record "null" history of its object. */
    method SeedLegacyHistory()
      modifies this`history
      ensures Snapshot() == SeededFiles(old(Snapshot()))
      ensures old(Coherent(Snapshot())) ==> Coherent(Snapshot()) && Abs(Snapshot()) == Seeded(old(Abs(Snapshot())))
    {
      ghost var before := Snapshot();
      if Coherent(before) { SeededCoherent(before); }
      if history.Some? {
        return;
      }
      var stored := ReadStored();
      if stored.Failure? { return; }
      var s := stored.value;
      history := Some([Entry(NULL, false, s.lastModified, s.etag, s.size)]);
    }

    /** Move the canonical payload and sidecar into the archive under `vid`. */
    method DemoteCanonicalToArchive(vid: string) returns (r: Result<(), Error>)
      modifies this`slot, this`sidecar, this`archive, this`archiveMeta
      ensures old(slot).None? ==> r == Failure(Internal) && unchanged(this)
      ensures old(slot).Some? ==>
                && r == Success(())
                && slot == None && sidecar == None
                && archive == old(archive)[vid := old(slot).value]
                && archiveMeta == match old(sidecar)
                                  case Some(s) => old(archiveMeta)[vid := s]
                                  case None => old(archiveMeta)
    {
      if slot.None? { return Failure(Internal); }
      archive := archive[vid := slot.value];
      slot := None;
      if sidecar.Some? {
        archiveMeta := archiveMeta[vid := sidecar.value];
      }
      sidecar := None;
      r := Success(());
    }

    /** Move an archived version back into the canonical slot. */
    method PromoteArchiveToCanonical(vid: string) returns (r: Result<(), Error>)
      modifies this`slot, this`sidecar, this`archive, this`archiveMeta
      ensures vid !in old(archive) ==> r == Failure(Internal) && unchanged(this)
      ensures vid in old(archive) ==>
                && r == Success(())
                && slot == Some(old(archive)[vid])
                && sidecar == (if vid in old(archiveMeta) then Some(old(archiveMeta)[vid]) else old(sidecar))
                && archive == old(archive) - {vid} && archiveMeta == old(archiveMeta) - {vid}
    {
      if vid !in archive { return Failure(Internal); }
      slot := Some(archive[vid]);
      archive := archive - {vid};
      if vid in archiveMeta {
        sidecar := Some(archiveMeta[vid]);
      }
      archiveMeta := archiveMeta - {vid};
      r := Success(());
    }

    method DiscardCanonical()
      modifies this`slot, this`sidecar
      ensures slot == None && sidecar == None
    {
      slot := None;
      sidecar := None;
    }

    method RemoveArchive(vid: string)
      modifies this`archive, this`archiveMeta
      ensures archive == old(archive) - {vid} && archiveMeta == old(archiveMeta) - {vid}
    {
      archive := archive - {vid};
      archiveMeta := archiveMeta - {vid};
    }

    /** Every versioned operation starts by seeding and reading the history. */
    method OpenHistory() returns (hist: seq<Entry>)
      requires Coherent(Snapshot())
      modifies this`history
      ensures Coherent(Snapshot())
      ensures Abs(Snapshot()) == Seeded(old(Abs(Snapshot())))
      ensures history == if hist == [] then None else Some(hist)
      ensures Holds(Snapshot(), hist) && Listed(Snapshot(), hist) == Abs(Snapshot()).versions
      ensures slot.Some? <==> hist != [] && !hist[0].deleteMarker
    {
      SeededCoherent(Snapshot());
      SeedLegacyHistory();
      hist := ReadHistory();
      if history.Some? { CoherentHolds(Snapshot()); }
    }

    /**
     * Free the canonical slot for a new head: drop the "null" version in suspended
     * mode, then move a real head into the archive. The returned history has no
     * record for the new head yet, and all its payloads are archived. Coherent files
     * never make the rename into the archive fail.
     */
    method FreeSlot(mode: Mode) returns (hist: seq<Entry>)
      requires !mode.Off? && Coherent(Snapshot())
      modifies this
      ensures slot == None && Holds(Snapshot(), hist)
      ensures Listed(Snapshot(), hist) == Kept(old(Abs(Snapshot()).versions), mode)
    {
      hide Abs, Coherent, Listed, Archived, Agrees, DistinctEntries, Without, Lookup;
      hist := OpenHistory();
      ghost var seeded := Snapshot();
      var occupied := hist != [] && !hist[0].deleteMarker;
      if mode.Suspended? {
        ListedEntries(seeded, hist);
        match Position(hist, NULL) {
          case Some(idx) =>
            Drop(seeded, hist, idx);
            if idx == 0 && occupied {
              DiscardCanonical();
              occupied := false;
            } else if !hist[idx].deleteMarker {
              RemoveArchive(NULL);
            }
            assert Snapshot() == DropPayload(seeded, hist, idx);
            hist := Removed(hist, idx);
          case None =>
            LookupNowhere(Listed(seeded, hist), NULL);
        }
      }
      if occupied {
        ghost var kept := Snapshot();
        var moved := DemoteCanonicalToArchive(hist[0].versionId);
        assert moved.Success?;
        Demote(kept, hist, Snapshot());
      }
    }

    /** Store a payload: put, copy and complete-multipart all end in these steps. */
    method WriteObject(mode: Mode, uuid: string, u: Upload) returns (r: Result<Option<string>, Error>)
      requires Coherent(Snapshot()) && NewUuid(Abs(Snapshot()), mode, uuid)
      modifies this
      ensures old(Legal(Abs(Snapshot()), Write(mode, uuid, u))) ==>
                Coherent(Snapshot()) && Abs(Snapshot()) == Spec(old(Abs(Snapshot())), Write(mode, uuid, u))
      ensures mode.Off? ==> Snapshot() == OffWritten(old(Snapshot()), u)
      ensures r == Success(if mode.Off? then None else Some(NewId(mode, uuid)))
    {
      if mode.Off? {
        slot := Some(u.file);
        sidecar := Some(StoredOf(u, None));
        return Success(None);
      }
      ghost var vs := Abs(Snapshot()).versions;
      FreshId(Snapshot(), mode, uuid);
      var hist := FreeSlot(mode);
      var vid := NewId(mode, uuid);
      ghost var free := Snapshot();
      IdsOfListed(free, hist, vid);
      slot := Some(u.file);
      sidecar := Some(StoredOf(u, Some(vid)));
      history := Some([EntryOf(u, vid)] + hist);
      NewHead(free, hist, EntryOf(u, vid), slot, sidecar);
      r := Success(Some(vid));
    }

    /** Delete without a version id: a delete marker, or the object itself in an unversioned bucket. */
    method DeleteObject(mode: Mode, uuid: string, now: int) returns (r: Result<DeleteOutcome, Error>)
      requires Coherent(Snapshot()) && NewUuid(Abs(Snapshot()), mode, uuid)
      modifies this
      ensures old(Legal(Abs(Snapshot()), Delete(mode, uuid, now))) ==>
                Coherent(Snapshot()) && Abs(Snapshot()) == Spec(old(Abs(Snapshot())), Delete(mode, uuid, now))
      ensures mode.Off? ==> Snapshot() == OffDeleted(old(Snapshot()))
      ensures r == Success(if mode.Off? then DeleteOutcome(None, false) else DeleteOutcome(Some(NewId(mode, uuid)), true))
    {
      if mode.Off? {
        slot := None;
        sidecar := None;
        return Success(DeleteOutcome(None, false));
      }
      FreshId(Snapshot(), mode, uuid);
      var hist := FreeSlot(mode);
      var vid := NewId(mode, uuid);
      IdsOfListed(Snapshot(), hist, vid);
      NewHead(Snapshot(), hist, MarkerEntry(vid, now), None, None);
      history := Some([MarkerEntry(vid, now)] + hist);
      r := Success(DeleteOutcome(Some(vid), true));
    }

    /** Remove the payload of a version, from the slot if it is the current one. */
    method RemovePayload(entry: Entry, wasCurrent: bool)
      modifies this`slot, this`sidecar, this`archive, this`archiveMeta
      ensures Snapshot() == if entry.deleteMarker then old(Snapshot())
                            else if wasCurrent then old(Snapshot()).(slot := None, sidecar := None)
                            else old(Snapshot()).(archive := old(archive) - {entry.versionId},
                                                  archiveMeta := old(archiveMeta) - {entry.versionId})
    {
      if !entry.deleteMarker {
        if wasCurrent {
          DiscardCanonical();
        } else {
          RemoveArchive(entry.versionId);
        }
      }
    }

    /** After a removal: promote the next real version into a freed slot, then write the history or drop its file. */
    method SettleHistory(hist: seq<Entry>, wasCurrent: bool)
      requires Holds(Snapshot(), hist)
      requires if wasCurrent then slot.None? else hist != [] && (slot.None? ==> hist[0].deleteMarker)
      modifies this
      ensures Coherent(Snapshot())
      ensures Abs(Snapshot()) == Log(Listed(old(Snapshot()), hist), hist != [])
    {
      ghost var dropped := Snapshot();
      if wasCurrent && hist != [] && !hist[0].deleteMarker {
        var moved := PromoteArchiveToCanonical(hist[0].versionId);
        assert moved.Success?;
        Promote(dropped, hist, Snapshot());
      }
      ghost var done := Snapshot();
      SaveHistory(done, hist);
      history := if hist == [] then None else Some(hist);
      assert Snapshot() == done.(history := Saved(hist));
    }

    /** Permanently remove one version or delete marker. */
    method DeleteObjectVersion(id: string) returns (r: Result<DeleteOutcome, Error>)
      requires Coherent(Snapshot())
      modifies this
      ensures Coherent(Snapshot())
      ensures Abs(Snapshot()) == Spec(old(Abs(Snapshot())), DeleteVersion(id))
      ensures r == match Lookup(old(Abs(Snapshot()).versions), id)
                   case None => Failure(NoSuchVersion)
                   case Some(v) => Success(DeleteOutcome(Some(id), v.Marker?))
    {
      hide Abs, Coherent, Listed, Archived, Agrees, DistinctEntries, Without, Holds;
      var hist := OpenHistory();
      ghost var seeded := Snapshot();
      match Position(hist, id) {
        case None =>
          NotListed(seeded, hist, id);
          r := Failure(NoSuchVersion);
        case Some(idx) =>
          var entry := hist[idx];
          DropForDelete(seeded, hist, idx);
          RemovePayload(entry, idx == 0);
          assert Snapshot() == DropPayload(seeded, hist, idx);
          hist := Removed(hist, idx);
          SettleHistory(hist, idx == 0);
          r := Success(DeleteOutcome(Some(id), entry.deleteMarker));
      }
    }

    /** The current object: what the head of the list says. */
    method GetObject() returns (r: Result<(Stored, Bytes), Error>)
      ensures r == if slot.None? then Failure(NoSuchKey) else Success((CanonicalMeta(slot.value, sidecar), slot.value.data))
      ensures Coherent(Snapshot()) ==>
                var vs := Abs(Snapshot()).versions;
                if vs == [] || vs[0].Marker? then r == Failure(NoSuchKey)
                else r == Success((vs[0].meta.GetOr(FromStat(vs[0].file, vs[0].file.mtime, None)), vs[0].file.data))
    {
      var stored := ReadStored();
      if stored.Failure? { return Failure(stored.error); }
      r := Success((stored.value, slot.value.data));
    }

    /** One version by id. Reading seeds the history of a legacy object. */
    method GetObjectVersion(id: string, now: int) returns (r: Result<(Stored, Bytes), Error>)
      modifies this`history
      ensures Snapshot() == SeededFiles(old(Snapshot()))
      ensures r == VersionAnswer(old(Snapshot()), id, now)
      ensures old(Coherent(Snapshot())) ==>
                Coherent(Snapshot()) && Abs(Snapshot()) == Spec(old(Abs(Snapshot())), ReadVersion(id))
    {
      SeedLegacyHistory();
      var hist := ReadHistory();
      match Position(hist, id) {
        case None => return Failure(NoSuchVersion);
        case Some(idx) =>
          if hist[idx].deleteMarker { return Failure(MethodNotAllowed); }
          if idx == 0 {
            var stored := ReadStored();
            if stored.Failure? { return Failure(stored.error); }
            r := Success((stored.value.(versionId := Some(id)), slot.value.data));
          } else {
            if id !in archive { return Failure(NoSuchVersion); }
            var meta := MapGet(archiveMeta, id).GetOr(FromStat(archive[id], now, Some(id)));
            r := Success((meta.(versionId := Some(id)), archive[id].data));
          }
      }
    }

    /**
     * Any legal run from any coherent state ends in the state the plain list
     * ends in, with the files coherent.
     */
    method Replay(ops: seq<Op>)
      requires Coherent(Snapshot()) && LegalRun(Abs(Snapshot()), ops)
      modifies this
      ensures Coherent(Snapshot())
      ensures Abs(Snapshot()) == RunSpec(old(Abs(Snapshot())), ops)
    {
      ghost var start := Abs(Snapshot());
      for n := 0 to |ops|
        invariant Coherent(Snapshot())
        invariant LegalRun(Abs(Snapshot()), ops[n..])
        invariant RunSpec(Abs(Snapshot()), ops[n..]) == RunSpec(start, ops)
      {
        assert ops[n..][0] == ops[n] && ops[n..][1..] == ops[n + 1..];
        match ops[n] {
          case Write(mode, uuid, u) => var _ := WriteObject(mode, uuid, u);
          case Delete(mode, uuid, now) => var _ := DeleteObject(mode, uuid, now);
          case DeleteVersion(id) => var _ := DeleteObjectVersion(id);
          case ReadVersion(id) => var _ := GetObjectVersion(id, 0);
        }
      }
    }
  }

  /** The id of a new head is not one of the ids it leaves below. */
  lemma FreshId(f: Files, mode: Mode, uuid: string)
    requires Coherent(f) && !mode.Off?
    requires mode.Enabled? ==> uuid !in Ids(Abs(f).versions)
    ensures NewId(mode, uuid) !in Ids(Kept(Abs(f).versions, mode))
  {
    var vs := Abs(f).versions;
    if f.history.Some? {
      CoherentHolds(f);
      ListedEntries(f, f.history.value);
    }
    WithoutDistinct(vs, NULL);
  }

  lemma IdsOfListed(f: Files, h: seq<Entry>, vid: string)
    requires Holds(f, h) && vid !in Ids(Listed(f, h))
    ensures forall i :: 0 <= i < |h| ==> h[i].versionId != vid
  {
    ListedEntries(f, h);
    forall i | 0 <= i < |h| ensures h[i].versionId != vid {
      assert Listed(f, h)[i].Id() in Ids(Listed(f, h));
    }
  }

  // ---------------------------------------------------------------------------
  // Falling back to the unversioned mode
  // ---------------------------------------------------------------------------

  /**
   * A bucket whose versioning is switched off again writes and deletes the slot
   * behind the back of the history. An unversioned write keeps the files coherent
   * exactly when there is no history, or the head is real and is described by the
   * same etag, size and time.
   */
  lemma OffWriteCoherent(f: Files, u: Upload)
    requires Coherent(f)
    ensures Coherent(OffWritten(f, u)) <==>
              (f.history.None? || (!f.history.value[0].deleteMarker && Agrees(f.history.value[0], Some(StoredOf(u, None)))))
  {
  }

  /** An unversioned delete keeps the files coherent exactly when there is no history or no current object. */
  lemma OffDeleteCoherent(f: Files)
    requires Coherent(f)
    ensures Coherent(OffDeleted(f)) <==> (f.history.None? || f.slot.None?)
  {
  }

  /**
   * Reading a version after an unversioned write over a history: the id of the current
   * object now answers with the new bytes, every other id as before.
   */
  lemma OffWriteAnswers(f: Files, u: Upload, id: string, now: int)
    requires Coherent(f) && f.history.Some?
    ensures VersionAnswer(OffWritten(f, u), id, now) ==
              if id == f.history.value[0].versionId && !f.history.value[0].deleteMarker
              then Success((StoredOf(u, Some(id)), u.file.data))
              else VersionAnswer(f, id, now)
  {
  }

  /** After an unversioned delete the id of the current object, still listed, has no object; every other id answers as before. */
  lemma OffDeleteAnswers(f: Files, id: string, now: int)
    requires Coherent(f) && f.history.Some?
    ensures VersionAnswer(OffDeleted(f), id, now) ==
              if id == f.history.value[0].versionId && !f.history.value[0].deleteMarker then Failure(NoSuchKey)
              else VersionAnswer(f, id, now)
  {
  }

  lemma HeadOfWritten(f: Files, e: Entry, file: File, meta: Option<Stored>)
    requires Coherent(f) && Abs(f).versioned && Abs(f).versions != [] && Abs(f).versions[0] == Real(e, file, meta)
    ensures f.history.Some? && f.history.value[0] == e && !e.deleteMarker
  {
    CoherentHolds(f);
    ListedEntries(f, f.history.value);
  }

  /**
   * By example, from any coherent state: an object is written while versioning is on,
   * versioning is switched off, and another is written. The id of the first version
   * then returns the second object's bytes.
   */
  method OffWriteRewritesVersion(key: KeyFiles, uuid: string, first: Upload, second: Upload, now: int)
    returns (r: Result<(Stored, Bytes), Error>)
    requires Coherent(key.Snapshot()) && NewUuid(Abs(key.Snapshot()), Enabled, uuid)
    modifies key
    ensures r == Success((StoredOf(second, Some(uuid)), second.file.data))
  {
    var _ := key.WriteObject(Enabled, uuid, first);
    HeadOfWritten(key.Snapshot(), EntryOf(first, uuid), first.file, Some(StoredOf(first, Some(uuid))));
    OffWriteAnswers(key.Snapshot(), second, uuid, now);
    var _ := key.WriteObject(Off, "", second);
    r := key.GetObjectVersion(uuid, now);
  }

  /** Likewise with a delete: the version is still in the history, and its object is gone. */
  method OffDeleteBreaksVersion(key: KeyFiles, uuid: string, first: Upload, now: int)
    returns (r: Result<(Stored, Bytes), Error>)
    requires Coherent(key.Snapshot()) && NewUuid(Abs(key.Snapshot()), Enabled, uuid)
    modifies key
    ensures r == Failure(NoSuchKey)
    ensures key.history.Some? && key.history.value != [] && key.history.value[0] == EntryOf(first, uuid)
  {
    var _ := key.WriteObject(Enabled, uuid, first);
    HeadOfWritten(key.Snapshot(), EntryOf(first, uuid), first.file, Some(StoredOf(first, Some(uuid))));
    OffDeleteAnswers(key.Snapshot(), uuid, now);
    var _ := key.DeleteObject(Off, "", now);
    r := key.GetObjectVersion(uuid, now);
  }
}
