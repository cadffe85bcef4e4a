/** What callers of one versioned key see: operations and the reads around them (src/storage/fs.rs). */
module VersionAnswers {
  import opened Wrappers
  import opened Versions

  type Answer = Result<(Stored, Bytes), Error>

  /** The answer is the upload, byte for byte and field for field, under a version id. */
  predicate Returns(a: Answer, u: Upload, versionId: Option<string>) {
    && a.Success? && a.value.1 == u.file.data
    && var m := a.value.0;
    && m.etag == u.etag && m.size == u.size && m.contentType == u.contentType && m.userMetadata == u.userMetadata
    && m.lastModified == u.lastModified && m.encrypted == u.encrypted && m.versionId == versionId
  }

  /** Two answers for one id: the same, up to the time of a version that has no metadata of its own. */
  predicate SameAnswer(a: Answer, b: Answer) {
    a == b
    || (&& a.Success? && b.Success? && a.value.1 == b.value.1
        && var m, n := a.value.0, b.value.0;
        && m.versionId == n.versionId
        && m == Stored("", |a.value.1|, "application/octet-stream", map[], m.lastModified, false, m.versionId)
        && n == Stored("", |b.value.1|, "application/octet-stream", map[], n.lastModified, false, n.versionId))
  }

  /** The id a write or delete returns: a new one, "null" in suspended mode, none in unversioned mode. */
  function ReturnedId(mode: Mode, uuid: string): Option<string> {
    match mode
    case Off => None
    case Enabled => Some(uuid)
    case Suspended => Some("null")
  }

  // ---------------------------------------------------------------------------
  // Lists and answers
  // ---------------------------------------------------------------------------

  lemma SameListed(f: Files, g: Files, id: string, now: int)
    requires Coherent(f) && Coherent(g) && Lookup(Abs(f).versions, id) == Lookup(Abs(g).versions, id)
    ensures SameAnswer(VersionAnswer(f, id, now), VersionAnswer(g, id, now))
  {
    hide Coherent, Abs, Lookup, VersionAnswer;
    VersionAnswerIsListed(f, id, now);
    VersionAnswerIsListed(g, id, now);
  }

  lemma BelowHead(vs: seq<Version>, mode: Mode, head: Version, id: string)
    requires mode.Suspended? ==> head.Id() == NULL
    ensures id != head.Id() ==> Lookup([head] + Kept(vs, mode), id) == Lookup(vs, id)
    ensures Lookup([head] + Kept(vs, mode), head.Id()) == Some(head)
  {
    assert ([head] + Kept(vs, mode))[1..] == Kept(vs, mode);
    if mode.Suspended? && id != NULL { LookupWithout(vs, NULL, id); }
  }

  lemma CoherentDistinct(f: Files)
    requires Coherent(f)
    ensures Distinct(Abs(f).versions)
  {
    if f.history.Some? {
      CoherentHolds(f);
      ListedEntries(f, f.history.value);
    }
  }

  /** An unversioned key answers for "null" only. */
  lemma UnversionedIds(l: Log, head: Version, id: string)
    requires l == Log([head], false) && head.Id() == NULL
    ensures Lookup(l.versions, id) == if id == NULL then Some(head) else None
  {
    assert l.versions[1..] == [];
  }

  // ---------------------------------------------------------------------------
  // Write, delete, remove, and read around it
  // ---------------------------------------------------------------------------

  /** Seeding changes no answer. */
  lemma SeededAnswers(f: Files, id: string, now: int)
    ensures VersionAnswer(SeededFiles(f), id, now) == VersionAnswer(f, id, now)
  {
  }

  lemma WrittenAnswers(f: Files, g: Files, mode: Mode, uuid: string, u: Upload, id: string, now: int)
    requires Coherent(f) && Coherent(g) && Legal(Abs(f), Write(mode, uuid, u)) && Abs(g) == Spec(Abs(f), Write(mode, uuid, u))
    ensures var vid := ReturnedId(mode, uuid).GetOr("null");
            && Returns(VersionAnswer(g, vid, now), u, Some(vid))
            && (id != vid ==> if mode.Off? then VersionAnswer(g, id, now) == Failure(NoSuchVersion)
                              else SameAnswer(VersionAnswer(f, id, now), VersionAnswer(g, id, now)))
  {
    hide Coherent, VersionAnswer;
    var head := Abs(g).versions[0];
    VersionAnswerIsListed(g, head.Id(), now);
    if mode.Off? {
      UnversionedIds(Abs(g), head, id);
      UnversionedIds(Abs(g), head, NULL);
      VersionAnswerIsListed(g, id, now);
    } else {
      BelowHead(Abs(f).versions, mode, head, id);
      if id != head.Id() { SameListed(f, g, id, now); }
    }
  }

  /**
   * After a write, in every mode, the current object is the upload, and so is the
   * version of the returned id ("null" in unversioned mode). In the versioned modes
   * every other id answers as before.
   */
  method WriteThenRead(key: KeyFiles, mode: Mode, uuid: string, u: Upload, id: string, now: int)
    returns (before: Answer, written: Result<Option<string>, Error>, current: Answer, version: Answer, after: Answer)
    requires Coherent(key.Snapshot()) && Legal(Abs(key.Snapshot()), Write(mode, uuid, u))
    modifies key
    ensures written == Success(ReturnedId(mode, uuid))
    ensures Returns(current, u, written.value)
    ensures Returns(version, u, Some(written.value.GetOr("null")))
    ensures id != written.value.GetOr("null") ==>
              if mode.Off? then after == Failure(NoSuchVersion) else SameAnswer(before, after)
  {
    hide Coherent, VersionAnswer, SeededFiles, SameAnswer;
    before := Failure(NoSuchVersion);
    SeededAnswers(key.Snapshot(), id, now);
    if !mode.Off? { before := key.GetObjectVersion(id, now); }
    ghost var files := key.Snapshot();
    written := key.WriteObject(mode, uuid, u);
    WrittenAnswers(files, key.Snapshot(), mode, uuid, u, id, now);
    SeededAnswers(key.Snapshot(), id, now);
    current := key.GetObject();
    version := key.GetObjectVersion(written.value.GetOr("null"), now);
    after := key.GetObjectVersion(id, now);
  }

  lemma DeletedAnswers(f: Files, g: Files, mode: Mode, uuid: string, id: string, now: int)
    requires Coherent(f) && Coherent(g) && Legal(Abs(f), Delete(mode, uuid, now)) && Abs(g) == Spec(Abs(f), Delete(mode, uuid, now))
    ensures var vid := ReturnedId(mode, uuid).GetOr("null");
            && VersionAnswer(g, vid, now) == Failure(if mode.Off? then NoSuchVersion else MethodNotAllowed)
            && (id != vid ==> if mode.Off? then VersionAnswer(g, id, now) == Failure(NoSuchVersion)
                              else SameAnswer(VersionAnswer(f, id, now), VersionAnswer(g, id, now)))
  {
    hide Coherent, VersionAnswer;
    VersionAnswerIsListed(g, id, now);
    VersionAnswerIsListed(g, ReturnedId(mode, uuid).GetOr("null"), now);
    if !mode.Off? {
      var head := Abs(g).versions[0];
      BelowHead(Abs(f).versions, mode, head, id);
      if id != head.Id() { SameListed(f, g, id, now); }
    }
  }

  /**
   * After a delete there is no current object. In the versioned modes the returned id
   * names a delete marker, and every other id answers as before; in unversioned mode
   * no id is left.
   */
  method DeleteThenRead(key: KeyFiles, mode: Mode, uuid: string, id: string, now: int)
    returns (before: Answer, deleted: Result<DeleteOutcome, Error>, current: Answer, marker: Answer, after: Answer)
    requires Coherent(key.Snapshot()) && Legal(Abs(key.Snapshot()), Delete(mode, uuid, now))
    modifies key
    ensures deleted == Success(DeleteOutcome(ReturnedId(mode, uuid), !mode.Off?))
    ensures current == Failure(NoSuchKey)
    ensures marker == Failure(if mode.Off? then NoSuchVersion else MethodNotAllowed)
    ensures id != deleted.value.versionId.GetOr("null") ==>
              if mode.Off? then after == Failure(NoSuchVersion) else SameAnswer(before, after)
  {
    hide Coherent, VersionAnswer, SeededFiles, SameAnswer;
    before := Failure(NoSuchVersion);
    SeededAnswers(key.Snapshot(), id, now);
    if !mode.Off? { before := key.GetObjectVersion(id, now); }
    ghost var files := key.Snapshot();
    deleted := key.DeleteObject(mode, uuid, now);
    DeletedAnswers(files, key.Snapshot(), mode, uuid, id, now);
    SeededAnswers(key.Snapshot(), id, now);
    current := key.GetObject();
    marker := key.GetObjectVersion(deleted.value.versionId.GetOr("null"), now);
    after := key.GetObjectVersion(id, now);
  }

  /**
   * Removing a version by id: a version or marker that answers is removed, and reported
   * as what it was; the id is unknown afterwards, and every other id answers as before.
   */
  method RemoveThenRead(key: KeyFiles, id: string, other: string, now: int)
    returns (asked: Answer, before: Answer, removed: Result<DeleteOutcome, Error>, gone: Answer, after: Answer)
    requires Coherent(key.Snapshot())
    modifies key
    ensures asked.Success? || asked == Failure(NoSuchVersion) || asked == Failure(MethodNotAllowed)
    ensures removed == if asked == Failure(NoSuchVersion) then Failure(NoSuchVersion)
                       else Success(DeleteOutcome(Some(id), asked == Failure(MethodNotAllowed)))
    ensures gone == Failure(NoSuchVersion)
    ensures other != id ==> SameAnswer(before, after)
  {
    hide Coherent, VersionAnswer;
    ghost var files, vs := key.Snapshot(), Abs(key.Snapshot()).versions;
    VersionAnswerIsListed(files, id, now);
    SeededAnswers(files, other, now);
    asked := key.GetObjectVersion(id, now);
    before := key.GetObjectVersion(other, now);
    removed := key.DeleteObjectVersion(id);
    ghost var left := key.Snapshot();
    CoherentDistinct(files);
    if Lookup(vs, id).Some? {
      WithoutDistinct(vs, id);
      if other != id { LookupWithout(vs, id, other); }
    }
    if other != id { SameListed(files, left, other, now); }
    VersionAnswerIsListed(left, id, now);
    gone := key.GetObjectVersion(id, now);
    SeededAnswers(left, other, now);
    after := key.GetObjectVersion(other, now);
  }

  /**
   * Removing the version or marker just made undoes the operation: the current object
   * is again what it was, and so is the whole list.
   */
  method MakeThenRemove(key: KeyFiles, mode: Mode, uuid: string, upload: Option<Upload>, now: int)
    returns (before: Answer, after: Answer)
    requires Coherent(key.Snapshot()) && !mode.Off?
    requires NewUuid(Abs(key.Snapshot()), mode, uuid) && ReturnedId(mode, uuid).value !in Ids(Abs(key.Snapshot()).versions)
    modifies key
    ensures after == before
    ensures Coherent(key.Snapshot()) && Abs(key.Snapshot()).versions == old(Abs(key.Snapshot()).versions)
  {
    hide Coherent;
    ghost var vs := Abs(key.Snapshot()).versions;
    before := key.GetObject();
    var made: Option<string>;
    if upload.Some? {
      var written := key.WriteObject(mode, uuid, upload.value);
      made := written.value;
    } else {
      var deleted := key.DeleteObject(mode, uuid, now);
      made := deleted.value.versionId;
    }
    ghost var head := Abs(key.Snapshot()).versions[0];
    NothingReplaced(vs, mode, head);
    var _ := key.DeleteObjectVersion(made.value);
    after := key.GetObject();
  }

  lemma NothingReplaced(vs: seq<Version>, mode: Mode, head: Version)
    requires mode.Suspended? ==> NULL !in Ids(vs)
    ensures Kept(vs, mode) == vs && Without([head] + vs, head.Id()) == vs && Lookup([head] + vs, head.Id()) == Some(head)
  {
    assert ([head] + vs)[1..] == vs;
    forall k | 0 <= k < |vs| ensures vs[k].Id() in Ids(vs) {}
    if mode.Suspended? { LookupNowhere(vs, NULL); }
  }
}
